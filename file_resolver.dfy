/** The primary file: walk the candidate files in priority order; a mask
    vetoes everything, and otherwise the first file that opens is chosen. */
module FileResolver {
  import opened Base
  import opened FileSystem

  /** The selection, stated recursively over the candidate list. */
  function SelectFile(fs: Fs, paths: seq<string>): Option<Handle>
  {
    if |paths| == 0 then None
    else if IsMask(Probe(fs, paths[0])) then None
    else if Probe(fs, paths[0]).opens then Some(FileHandle(paths[0]))
    else SelectFile(fs, paths[1..])
  }

  /** A candidate that neither masks nor opens: the walk moves past it. */
  predicate Skipped(fs: Fs, p: string)
  {
    !IsMask(Probe(fs, p)) && !Probe(fs, p).opens
  }

  /** `paths[i]` is the winner: it opens, is not a mask, and every candidate
      before it was skipped. */
  predicate Wins(fs: Fs, paths: seq<string>, i: int)
  {
    0 <= i < |paths| && !IsMask(Probe(fs, paths[i])) && Probe(fs, paths[i]).opens
    && forall j :: 0 <= j < i ==> Skipped(fs, paths[j])
  }

  /** `locate_file`: the loop with its two early returns. */
  method LocateFile(fs: Fs, paths: seq<string>) returns (r: Option<Handle>)
    ensures r == SelectFile(fs, paths)
  {
    var i := 0;
    while i < |paths|
      invariant 0 <= i <= |paths|
      invariant SelectFile(fs, paths) == SelectFile(fs, paths[i..])
    {
      assert paths[i..][1..] == paths[i + 1..];
      var p := paths[i];
      var node := Probe(fs, p);
      if node.link == Some(NullPath) {
        return None;
      }
      if node.opens {
        return Some(FileHandle(p));
      }
      i := i + 1;
    }
    return None;
  }

  /** The selection is exactly the winning candidate, and there is none
      when no candidate wins. */
  lemma {:induction false} SelectFileWinner(fs: Fs, paths: seq<string>, h: Handle)
    ensures SelectFile(fs, paths) == Some(h) <==> exists i :: Wins(fs, paths, i) && h == FileHandle(paths[i])
  {
    if |paths| > 0 {
      SelectFileWinner(fs, paths[1..], h);
      if SelectFile(fs, paths) == Some(h) {
        if !Probe(fs, paths[0]).opens {
          var i :| Wins(fs, paths[1..], i) && h == FileHandle(paths[1..][i]);
          assert Wins(fs, paths, i + 1);
        } else {
          assert Wins(fs, paths, 0);
        }
      }
      if i :| Wins(fs, paths, i) && h == FileHandle(paths[i]) {
        if i > 0 {
          assert Skipped(fs, paths[0]);
          assert Wins(fs, paths[1..], i - 1);
        }
      }
    }
  }

  /** A mask reached before any file that opens vetoes every lower-priority
      candidate, whatever they are. */
  lemma {:induction false} MaskVetoes(fs: Fs, paths: seq<string>, i: nat)
    requires i < |paths| && IsMask(Probe(fs, paths[i]))
    requires forall j :: 0 <= j < i ==> Skipped(fs, paths[j])
    ensures SelectFile(fs, paths) == None
  {
    if i > 0 {
      assert Skipped(fs, paths[0]);
      MaskVetoes(fs, paths[1..], i - 1);
    }
  }

  /** Whatever is selected is one of the candidates, it opens, and it is
      not a mask: the mask check comes before the open attempt. */
  lemma {:induction false} SelectedIsOpenable(fs: Fs, paths: seq<string>)
    requires SelectFile(fs, paths).Some?
    ensures SelectFile(fs, paths).value.FileHandle?
    ensures SelectFile(fs, paths).value.path in paths
    ensures !IsMask(Probe(fs, SelectFile(fs, paths).value.path))
    ensures Probe(fs, SelectFile(fs, paths).value.path).opens
  {
    if IsMask(Probe(fs, paths[0])) || !Probe(fs, paths[0]).opens {
      SelectedIsOpenable(fs, paths[1..]);
    }
  }

}
