/** The snippet merger: directories are visited from the lowest priority to
    the highest; an entry that opens inserts or replaces its name, a mask
    entry removes it. The net effect is that, for each name, the
    highest-priority directory that says something about it decides. */
module SnippetMerger {
  import opened Base
  import opened FileSystem
  import opened OrderedMap

  /** What a listing entry says about a name: remove it, or install a
      handle for it. */
  datatype Verdict = Mask | Install(h: Handle)

  /** The verdict of one listing item of directory `dir` on name `k`: an
      entry of another name, an item that errors, or an entry that is
      neither a mask nor openable says nothing. */
  function ItemVerdict(dir: string, item: Item, k: string): Option<Verdict>
  {
    match item
    case Unreadable => None
    case Entry(name, node) =>
      if name != k then None
      else if IsMask(node) then Some(Mask)
      else if node.opens then Some(Install(EntryHandle(dir, name)))
      else None
  }

  /** The verdict of a listing on `k`: that of its last item that has one. */
  function ListingVerdict(dir: string, items: seq<Item>, k: string): Option<Verdict>
  {
    if |items| == 0 then None
    else match ItemVerdict(dir, items[|items| - 1], k)
      case Some(v) => Some(v)
      case None => ListingVerdict(dir, items[..|items| - 1], k)
  }

  /** The verdict of a directory on `k`; a directory that does not open or
      cannot be listed says nothing. */
  function DirVerdict(fs: Fs, dir: string, k: string): Option<Verdict>
  {
    if dir in fs.dirs && fs.dirs[dir].Listed? then ListingVerdict(dir, fs.dirs[dir].items, k)
    else None
  }

  /** A verdict applied over what lower-priority directories decided. */
  function Overlay(v: Option<Verdict>, below: Option<Handle>): Option<Handle>
  {
    match v
    case None => below
    case Some(Mask) => None
    case Some(Install(h)) => Some(h)
  }

  /** The handle the merged map holds for `k` after all of `dirs`: the
      verdict of the first directory that has one. */
  function Resolve(fs: Fs, dirs: seq<string>, k: string): Option<Handle>
  {
    if |dirs| == 0 then None
    else Overlay(DirVerdict(fs, dirs[0], k), Resolve(fs, dirs[1..], k))
  }

  /** The notice logged when a directory opens but cannot be listed. */
  function Notice(dir: string): string
  {
    "failed to list '" + dir + "'"
  }

  predicate ListFails(fs: Fs, dir: string)
  {
    dir in fs.dirs && fs.dirs[dir].ListFailed?
  }

  /** The notices logged while merging `dirs`, in the order the merge
      visits them (lowest priority first). */
  function ListFailures(fs: Fs, dirs: seq<string>): seq<string>
  {
    if |dirs| == 0 then []
    else ListFailures(fs, dirs[1..]) + (if ListFails(fs, dirs[0]) then [Notice(dirs[0])] else [])
  }

  /** The inner loop of `locate_snippets`: one listing merged into the map. */
  method MergeListing(snips: seq<(string, Handle)>, dir: string, items: seq<Item>)
    returns (r: seq<(string, Handle)>)
    requires Sorted(snips)
    ensures Sorted(r)
    ensures forall k :: Get(r, k) == Overlay(ListingVerdict(dir, items, k), Get(snips, k))
  {
    r := snips;
    var j := 0;
    while j < |items|
      invariant 0 <= j <= |items|
      invariant Sorted(r)
      invariant forall k :: Get(r, k) == Overlay(ListingVerdict(dir, items[..j], k), Get(snips, k))
    {
      assert items[..j + 1][..j] == items[..j];
      match items[j] {
        case Unreadable =>
        case Entry(name, node) =>
          if node.link == Some(NullPath) {
            r := Remove(r, name);
          } else if node.opens {
            r := Insert(r, name, EntryHandle(dir, name));
          }
      }
      j := j + 1;
    }
    assert items[..j] == items;
  }

  /** `locate_snippets`: the directories in reverse priority order, each
      merged into one ordered map; a directory that does not open is
      skipped, one that cannot be listed is skipped with a notice. */
  method LocateSnippets(fs: Fs, dirs: seq<string>) returns (snips: seq<(string, Handle)>, notices: seq<string>)
    ensures Sorted(snips)
    ensures forall k :: Get(snips, k) == Resolve(fs, dirs, k)
    ensures notices == ListFailures(fs, dirs)
  {
    snips, notices := [], [];
    var i := |dirs|;
    while i > 0
      invariant 0 <= i <= |dirs|
      invariant Sorted(snips)
      invariant forall k :: Get(snips, k) == Resolve(fs, dirs[i..], k)
      invariant notices == ListFailures(fs, dirs[i..])
    {
      i := i - 1;
      var dir := dirs[i];
      assert dirs[i..][1..] == dirs[i + 1..];
      if dir in fs.dirs {
        match fs.dirs[dir] {
          case ListFailed =>
            notices := notices + [Notice(dir)];
          case Listed(items) =>
            snips := MergeListing(snips, dir, items);
        }
      }
    }
  }

  /** Directory `i` is the highest-priority one with a verdict on `k`. */
  predicate Decides(fs: Fs, dirs: seq<string>, i: int, k: string)
  {
    0 <= i < |dirs| && DirVerdict(fs, dirs[i], k).Some?
    && forall j :: 0 <= j < i ==> DirVerdict(fs, dirs[j], k).None?
  }

  /** The merged map holds `h` for `k` exactly when the highest-priority
      directory with a verdict on `k` installs `h`. */
  lemma {:induction false} ResolveInstalled(fs: Fs, dirs: seq<string>, k: string, h: Handle)
    ensures Resolve(fs, dirs, k) == Some(h)
            <==> exists i :: Decides(fs, dirs, i, k) && DirVerdict(fs, dirs[i], k) == Some(Install(h))
  {
    if |dirs| > 0 {
      ResolveInstalled(fs, dirs[1..], k, h);
      if Resolve(fs, dirs, k) == Some(h) {
        if DirVerdict(fs, dirs[0], k).None? {
          var i :| Decides(fs, dirs[1..], i, k) && DirVerdict(fs, dirs[1..][i], k) == Some(Install(h));
          assert Decides(fs, dirs, i + 1, k);
        } else {
          assert Decides(fs, dirs, 0, k);
        }
      }
      if i :| Decides(fs, dirs, i, k) && DirVerdict(fs, dirs[i], k) == Some(Install(h)) {
        if i > 0 {
          assert DirVerdict(fs, dirs[0], k).None?;
          assert Decides(fs, dirs[1..], i - 1, k);
        }
      }
    }
  }

  /** A mask in the highest-priority directory with a verdict on `k` keeps
      `k` out of the result, whatever lower-priority directories hold. */
  lemma {:induction false} MaskWins(fs: Fs, dirs: seq<string>, k: string, i: nat)
    requires Decides(fs, dirs, i, k) && DirVerdict(fs, dirs[i], k) == Some(Mask)
    ensures Resolve(fs, dirs, k) == None
  {
    if i > 0 {
      assert DirVerdict(fs, dirs[0], k).None?;
      assert Decides(fs, dirs[1..], i - 1, k);
      MaskWins(fs, dirs[1..], k, i - 1);
    }
  }

  /** A name on which no directory has a verdict is absent. */
  lemma {:induction false} UndecidedAbsent(fs: Fs, dirs: seq<string>, k: string)
    requires forall i :: 0 <= i < |dirs| ==> DirVerdict(fs, dirs[i], k).None?
    ensures Resolve(fs, dirs, k) == None
  {
    if |dirs| > 0 {
      assert DirVerdict(fs, dirs[0], k).None?;
      UndecidedAbsent(fs, dirs[1..], k);
    }
  }

  /** The verdict of a listing is that of its last item with a verdict. */
  lemma {:induction false} ListingVerdictLast(dir: string, items: seq<Item>, k: string, v: Verdict)
    ensures ListingVerdict(dir, items, k) == Some(v)
            <==> exists j :: 0 <= j < |items| && ItemVerdict(dir, items[j], k) == Some(v)
                             && forall j' :: j < j' < |items| ==> ItemVerdict(dir, items[j'], k).None?
  {
    if |items| > 0 {
      var n := |items| - 1;
      var front := items[..n];
      ListingVerdictLast(dir, front, k, v);
      if ListingVerdict(dir, items, k) == Some(v) && ItemVerdict(dir, items[n], k).None? {
        var j :| 0 <= j < |front| && ItemVerdict(dir, front[j], k) == Some(v)
                 && forall j' :: j < j' < |front| ==> ItemVerdict(dir, front[j'], k).None?;
        assert forall j' :: j < j' < |items| ==> ItemVerdict(dir, items[j'], k).None?;
      }
      if j :| 0 <= j < |items| && ItemVerdict(dir, items[j], k) == Some(v)
              && forall j' :: j < j' < |items| ==> ItemVerdict(dir, items[j'], k).None? {
        if j < n {
          assert ItemVerdict(dir, items[n], k).None?;
          assert forall j' :: j < j' < |front| ==> ItemVerdict(dir, front[j'], k).None?;
        }
      }
    }
  }

  /** A directory whose listing has no entry named `k` has no verdict on
      `k`: merging it changes only the names it lists. */
  lemma {:induction false} UnlistedNameUntouched(fs: Fs, dir: string, k: string)
    requires dir in fs.dirs && fs.dirs[dir].Listed?
    requires forall e :: e in fs.dirs[dir].items && e.Entry? ==> e.name != k
    ensures DirVerdict(fs, dir, k) == None
    ensures forall below :: Overlay(DirVerdict(fs, dir, k), below) == below
  {
    var items := fs.dirs[dir].items;
    if v :| DirVerdict(fs, dir, k) == Some(v) {
      ListingVerdictLast(dir, items, k, v);
      var j :| 0 <= j < |items| && ItemVerdict(dir, items[j], k) == Some(v);
      assert items[j] in items;
    }
  }

  /** Whatever the merged map holds for `k` is an entry named `k` that opens
      and is not a mask, in a listed directory of `dirs`. */
  lemma {:induction false} ResolvedIsListedEntry(fs: Fs, dirs: seq<string>, k: string)
    requires Resolve(fs, dirs, k).Some?
    ensures var h := Resolve(fs, dirs, k).value;
            && h.EntryHandle? && h.name == k && h.dir in dirs
            && h.dir in fs.dirs && fs.dirs[h.dir].Listed?
            && exists node :: Entry(k, node) in fs.dirs[h.dir].items && !IsMask(node) && node.opens
  {
    var h := Resolve(fs, dirs, k).value;
    ResolveInstalled(fs, dirs, k, h);
    var i :| Decides(fs, dirs, i, k) && DirVerdict(fs, dirs[i], k) == Some(Install(h));
    var dir := dirs[i];
    var items := fs.dirs[dir].items;
    ListingVerdictLast(dir, items, k, Install(h));
    var j :| 0 <= j < |items| && ItemVerdict(dir, items[j], k) == Some(Install(h));
    assert items[j] in items;
  }

  /** A notice is logged for exactly the directories of `dirs` that open but
      cannot be listed, and it names the directory. */
  lemma {:induction false} NoticesNameUnlistable(fs: Fs, dirs: seq<string>, n: string)
    ensures n in ListFailures(fs, dirs) <==> exists d :: d in dirs && ListFails(fs, d) && n == Notice(d)
  {
    if |dirs| > 0 {
      NoticesNameUnlistable(fs, dirs[1..], n);
      if d :| d in dirs && ListFails(fs, d) && n == Notice(d) {
        if d != dirs[0] {
          assert d in dirs[1..];
        }
      }
    }
  }

}
