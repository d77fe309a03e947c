/** Argument parsing: `key=value` tokens become the ordered list of candidate
    files (`motd=`) and the ordered list of candidate directories
    (`motd_dir=`). Index 0 is the highest priority. */
module Args {
  import opened Base

  const FileKey: string := "motd"
  const DirKey: string := "motd_dir"

  const DefaultFiles: seq<string> := ["/etc/motd", "/run/motd", "/usr/lib/motd"]
  const DefaultDirs: seq<string> := ["/etc/motd.d/", "/run/motd.d/", "/usr/lib/motd.d/"]

  /** The tokens `key=v`, one per value, in order. */
  function Tagged(key: string, vs: seq<string>): seq<string>
  {
    if |vs| == 0 then [] else [key + "=" + vs[0]] + Tagged(key, vs[1..])
  }

  /** The configuration used when no token is given: `motd=/etc/motd`,
      `motd=/run/motd`, `motd=/usr/lib/motd`, `motd_dir=/etc/motd.d/`,
      `motd_dir=/run/motd.d/`, `motd_dir=/usr/lib/motd.d/`. */
  const Defaults: seq<string> := Tagged(FileKey, DefaultFiles) + Tagged(DirKey, DefaultDirs)

  /** The tokens actually parsed: the defaults when there are none. */
  function Options(args: seq<string>): seq<string>
  {
    if |args| == 0 then Defaults else args
  }

  /** Position of the first `=` in `t`. */
  function FindEq(t: string): (r: Option<nat>)
    ensures r.None? ==> '=' !in t
    ensures r.Some? ==> r.value < |t| && t[r.value] == '=' && '=' !in t[..r.value]
  {
    if |t| == 0 then None
    else if t[0] == '=' then Some(0)
    else match FindEq(t[1..])
      case None => None
      case Some(i) =>
        assert t[..i + 1] == [t[0]] + t[1..][..i];
        Some(i + 1)
  }

  /** `splitn(2, '=')`: the text before the first `=` and everything after
      it, or None when there is no `=`. */
  function SplitOnce(t: string): (r: Option<(string, string)>)
    ensures r.None? <==> '=' !in t
    ensures r.Some? ==> t == r.value.0 + "=" + r.value.1 && '=' !in r.value.0
  {
    match FindEq(t)
    case None => None
    case Some(i) =>
      assert t == t[..i] + "=" + t[i + 1..];
      Some((t[..i], t[i + 1..]))
  }

  /** The value a token contributes to the list for `key`. */
  function TokenValue(t: string, key: string): seq<string>
  {
    match SplitOnce(t)
    case None => []
    case Some(kv) => if kv.0 == key then [kv.1] else []
  }

  /** The values, in token order, of the tokens whose key is `key`. */
  function Values(opts: seq<string>, key: string): seq<string>
  {
    if |opts| == 0 then []
    else Values(opts[..|opts| - 1], key) + TokenValue(opts[|opts| - 1], key)
  }

  /** `parse_args`: one pass over the tokens, appending each value to the
      list its key selects. */
  method ParseArgs(args: seq<string>) returns (files: seq<string>, dirs: seq<string>)
    ensures files == Values(Options(args), FileKey)
    ensures dirs == Values(Options(args), DirKey)
  {
    var opts := Options(args);
    files, dirs := [], [];
    var i := 0;
    while i < |opts|
      invariant 0 <= i <= |opts|
      invariant files == Values(opts[..i], FileKey)
      invariant dirs == Values(opts[..i], DirKey)
    {
      assert opts[..i + 1][..i] == opts[..i];
      match SplitOnce(opts[i]) {
        case None =>
        case Some(kv) =>
          if kv.0 == DirKey {
            dirs := dirs + [kv.1];
          } else if kv.0 == FileKey {
            files := files + [kv.1];
          }
      }
      i := i + 1;
    }
    assert opts[..i] == opts;
  }

  /** Splitting is unique: a token of the form `k=v` with no `=` in `k`
      splits into exactly `k` and `v`, so `v` may itself contain `=`. */
  lemma SplitOnceUnique(t: string, k: string, v: string)
    requires t == k + "=" + v && '=' !in k
    ensures SplitOnce(t) == Some((k, v))
  {
    var i := FindEq(t).value;
    assert t[|k|] == '=';
    assert i == |k|;
    assert t[..i] == k;
    assert t[i + 1..] == v;
  }

  lemma ValuesSingleton(t: string, key: string)
    ensures Values([t], key) == TokenValue(t, key)
  {
    assert [t][..0] == [];
  }

  /** The key a token splits into, followed by `=`, begins the token. */
  lemma SplitPrefix(t: string)
    requires SplitOnce(t).Some?
    ensures SplitOnce(t).value.0 + "=" <= t
  {
    var kv := SplitOnce(t).value;
    assert t == (kv.0 + "=") + kv.1;
  }

  /** A token contributes to the list for `key` exactly when it starts with
      `key=`, and what it contributes is the rest of the token. */
  lemma TokenContribution(t: string, key: string)
    requires '=' !in key
    ensures Values([t], key) == if key + "=" <= t then [t[|key| + 1..]] else []
  {
    ValuesSingleton(t, key);
    if key + "=" <= t {
      PrefixedToken(t, key);
    } else if SplitOnce(t).Some? {
      SplitPrefix(t);
    }
  }

  lemma PrefixedToken(t: string, key: string)
    requires '=' !in key && key + "=" <= t
    ensures TokenValue(t, key) == [t[|key| + 1..]]
  {
    var v := t[|key| + 1..];
    assert t == (key + "=") + v;
    SplitOnceUnique(t, key, v);
  }

  /** Values are collected in token order: parsing a concatenation is
      concatenating the parses. */
  lemma {:induction false} ValuesAppend(a: seq<string>, b: seq<string>, key: string)
    ensures Values(a + b, key) == Values(a, key) + Values(b, key)
  {
    if |b| == 0 {
      assert a + b == a;
    } else {
      var b' := b[..|b| - 1];
      assert (a + b)[..|a + b| - 1] == a + b';
      ValuesAppend(a, b', key);
    }
  }

  /** A token that contributes nothing to the list for `key` can be
      dropped from anywhere in the token list. */
  lemma DropToken(before: seq<string>, t: string, after: seq<string>, key: string)
    requires TokenValue(t, key) == []
    ensures Values(before + [t] + after, key) == Values(before + after, key)
  {
    ValuesSingleton(t, key);
    ValuesAppend(before + [t], after, key);
    ValuesAppend(before, [t], key);
    ValuesAppend(before, after, key);
  }

  /** A token with no `=`, or whose key is neither `motd` nor `motd_dir`,
      adds nothing to either list wherever it stands. */
  lemma IgnoredToken(before: seq<string>, t: string, after: seq<string>)
    requires '=' !in t || (SplitOnce(t).value.0 != FileKey && SplitOnce(t).value.0 != DirKey)
    ensures Values(before + [t] + after, FileKey) == Values(before + after, FileKey)
    ensures Values(before + [t] + after, DirKey) == Values(before + after, DirKey)
  {
    DropToken(before, t, after, FileKey);
    DropToken(before, t, after, DirKey);
  }

  /** What a well-formed token `key=v` contributes to each list. */
  lemma KeyedToken(key: string, v: string)
    requires '=' !in key
    ensures TokenValue(key + "=" + v, key) == [v]
    ensures key != FileKey ==> TokenValue(key + "=" + v, FileKey) == []
    ensures key != DirKey ==> TokenValue(key + "=" + v, DirKey) == []
  {
    SplitOnceUnique(key + "=" + v, key, v);
  }

  /** Parsing `key=v` tokens gives back the values for `key` and nothing for
      any other key. */
  lemma {:induction false} TaggedValues(key: string, vs: seq<string>, other: string)
    requires '=' !in key && '=' !in other
    ensures Values(Tagged(key, vs), key) == vs
    ensures other != key ==> Values(Tagged(key, vs), other) == []
  {
    if |vs| > 0 {
      TaggedValues(key, vs[1..], other);
      KeyedToken(key, vs[0]);
      SplitOnceUnique(key + "=" + vs[0], key, vs[0]);
      ValuesSingleton(key + "=" + vs[0], key);
      ValuesSingleton(key + "=" + vs[0], other);
      ValuesAppend([key + "=" + vs[0]], Tagged(key, vs[1..]), key);
      ValuesAppend([key + "=" + vs[0]], Tagged(key, vs[1..]), other);
      assert vs == [vs[0]] + vs[1..];
    }
  }

  /** With no tokens the lists are the three default files and the three
      default directories, in priority order. */
  lemma DefaultConfiguration()
    ensures Values(Options([]), FileKey) == ["/etc/motd", "/run/motd", "/usr/lib/motd"]
    ensures Values(Options([]), DirKey) == ["/etc/motd.d/", "/run/motd.d/", "/usr/lib/motd.d/"]
  {
    TaggedValues(FileKey, DefaultFiles, DirKey);
    TaggedValues(DirKey, DefaultDirs, FileKey);
    ValuesAppend(Tagged(FileKey, DefaultFiles), Tagged(DirKey, DefaultDirs), FileKey);
    ValuesAppend(Tagged(FileKey, DefaultFiles), Tagged(DirKey, DefaultDirs), DirKey);
  }

}
