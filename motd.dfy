/** The whole resolution: parse the tokens, emit the primary file if one is
    selected, then emit every merged snippet in ascending name order. The
    output is the sequence of handles whose content is copied, in order. */
module Motd {
  import opened Base
  import opened FileSystem
  import opened OrderedMap
  import opened Args
  import opened FileResolver
  import opened SnippetMerger

  /** The primary selection as a prefix of the output. */
  function Primary(o: Option<Handle>): seq<Handle>
  {
    match o
    case None => []
    case Some(h) => [h]
  }

  /** `run_motd`: the primary file first, then the snippets in ascending key
      order, each exactly once; the notices are those of the merge. */
  method RunMotd(fs: Fs, args: seq<string>) returns (out: seq<Handle>, notices: seq<string>)
    ensures var dirs := Values(Options(args), DirKey);
            var prim := Primary(SelectFile(fs, Values(Options(args), FileKey)));
            && |prim| <= |out| && out[..|prim|] == prim
            && (forall i :: |prim| <= i < |out| ==>
                  out[i].EntryHandle? && Resolve(fs, dirs, out[i].name) == Some(out[i]))
            && (forall i, j :: |prim| <= i < j < |out| ==>
                  out[i].EntryHandle? && out[j].EntryHandle? && Less(out[i].name, out[j].name))
            && (forall k :: Resolve(fs, dirs, k).Some? ==> Resolve(fs, dirs, k).value in out[|prim|..])
            && notices == ListFailures(fs, dirs)
  {
    var files, dirs := ParseArgs(args);
    var primary := LocateFile(fs, files);
    var prim := Primary(primary);
    out := prim;
    var snips;
    snips, notices := LocateSnippets(fs, dirs);
    var j := 0;
    while j < |snips|
      invariant 0 <= j <= |snips|
      invariant |out| == |prim| + j && out[..|prim|] == prim
      invariant forall t :: 0 <= t < j ==> out[|prim| + t] == snips[t].1
    {
      out := out + [snips[j].1];
      j := j + 1;
    }
    forall t | 0 <= t < |snips|
      ensures snips[t].1.EntryHandle? && snips[t].1.name == snips[t].0
      ensures Resolve(fs, dirs, snips[t].0) == Some(snips[t].1)
    {
      GetAt(snips, t);
      ResolvedIsListedEntry(fs, dirs, snips[t].0);
    }
    forall i | |prim| <= i < |out|
      ensures out[i].EntryHandle? && out[i].name == snips[i - |prim|].0
      ensures Resolve(fs, dirs, out[i].name) == Some(out[i])
    {
      assert out[i] == snips[i - |prim|].1;
    }
    forall i, j | |prim| <= i < j < |out|
      ensures Less(out[i].name, out[j].name)
    {
      assert out[i].name == snips[i - |prim|].0 && out[j].name == snips[j - |prim|].0;
    }
    forall k | Resolve(fs, dirs, k).Some?
      ensures Resolve(fs, dirs, k).value in out[|prim|..]
    {
      var t := GetIndex(snips, k);
      assert out[|prim|..][t] == snips[t].1;
    }
  }

}
