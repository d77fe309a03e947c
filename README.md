# rpam_motd resolution core, modelled in Dafny

rpam_motd is a PAM session module that prints a message of the day. Its core
decides what gets printed:

- `parse_args` turns `motd=<path>` and `motd_dir=<path>` tokens into two
  priority-ordered lists, or uses six built-in defaults when no token is
  given;
- `locate_file` picks at most one primary file: a symbolic link to
  `/dev/null` vetoes the rest, otherwise the first file that opens wins;
- `locate_snippets` merges snippet directories by name into an ordered map,
  visiting them from the lowest priority to the highest so that
  higher-priority entries replace lower ones and `/dev/null` links remove
  them;
- `run_motd` prints the primary file, then the snippets in ascending name
  order.

The model keeps that form. Each loop is a Dafny method with loop
invariants: `Args.ParseArgs`, `FileResolver.LocateFile`,
`SnippetMerger.MergeListing` with `SnippetMerger.LocateSnippets`, and
`Motd.RunMotd`. Each method is proved against a specification function:
`Args.Values`, `FileResolver.SelectFile` and `SnippetMerger.Resolve`.
Lemmas then state what those functions mean. The parse collects values in
token order. The selected file is the first candidate that wins. A snippet
name gets the verdict of the highest-priority directory that has one.

The filesystem is an immutable value, `FileSystem.Fs`:

- For every path, it records what `read_link` returns, if anything, and
  whether the path opens.
- A directory that is not in the map does not open.
- A directory that is in the map either fails to list or yields a sequence
  of items. An item is an error, or an entry with a name and the same two
  observations.
- A mask is a node whose link target is exactly `/dev/null`.

An opened file is represented by what was opened: `FileHandle(path)` or
`EntryHandle(dir, name)`. The `BTreeMap` is modelled by `OrderedMap`, a list
kept in strictly ascending key order, with `Insert`, `Remove` and `Get`.
Iterating over the map is walking the list. The logger becomes the
`notices` sequence that the merge returns.

## Model

| member | source | states |
|---|---|---|
| `Args.FindEq` | src/lib.rs:80 | the position found holds the first `=` of the token; None means the token has no `=` |
| `Args.SplitOnce` | src/lib.rs:80-85 | None exactly when the token has no `=`; otherwise token == key + "=" + value with no `=` in the key |
| `Args.SplitOnceUnique` | src/lib.rs:80-85 | a token `k=v` with no `=` in `k` splits into exactly `k` and `v`, so the value may itself contain `=` |
| `Args.ParseArgs` | src/lib.rs:62-95 | the file list and the directory list are the `motd` and `motd_dir` values of the tokens, or of the defaults when there are no tokens |
| `Args.TokenContribution` | src/lib.rs:79-91 | a token contributes to a key's list exactly when it starts with `key=`, and it contributes everything after that `=` |
| `Args.ValuesAppend` | src/lib.rs:79-92 | values are collected in token order: parsing a concatenation concatenates the parses |
| `Args.DropToken` | src/lib.rs:82-91 | a token that contributes nothing to a key's list can be removed from anywhere without changing that list |
| `Args.IgnoredToken` | src/lib.rs:82-91 | a token with no `=`, or with a key other than `motd`/`motd_dir`, changes neither list wherever it stands |
| `Args.KeyedToken` | src/lib.rs:80-91 | `key=v` contributes `[v]` to its own key's list and nothing to the other list |
| `Args.TaggedValues` | src/lib.rs:64-74 | a list of `key=v` tokens parses back to its values for `key` and to nothing for any other key |
| `Args.DefaultConfiguration` | src/lib.rs:64-74 | with no tokens the files are `/etc/motd`, `/run/motd`, `/usr/lib/motd` and the directories `/etc/motd.d/`, `/run/motd.d/`, `/usr/lib/motd.d/`, in that order |
| `FileResolver.LocateFile` | src/lib.rs:97-113 | the loop returns exactly `SelectFile`: None at the first mask, the first candidate that opens if no mask comes before it, None when the list runs out |
| `FileResolver.SelectFileWinner` | src/lib.rs:99-111 | the selection is `Some(h)` iff `h` is the handle of a candidate that opens, is not a mask, and comes after only candidates that are neither masks nor openable |
| `FileResolver.MaskVetoes` | src/lib.rs:100-104 | if the first candidate that is a mask or opens is a mask, nothing is selected, whatever follows |
| `FileResolver.SelectedIsOpenable` | src/lib.rs:101-110 | a selected file is one of the candidates, opens, and is never a mask |
| `SnippetMerger.MergeListing` | src/lib.rs:139-159 | merging one listing keeps the map ordered and applies, name by name, the verdict of the listing's last entry for that name (mask removes, openable installs, anything else keeps) |
| `SnippetMerger.LocateSnippets` | src/lib.rs:115-162 | the reverse-order merge yields an ordered map that holds, for every name, `Resolve` of the directory list, and the notices of the directories that could not be listed |
| `SnippetMerger.ResolveInstalled` | src/lib.rs:125-158 | a name maps to `h` iff the highest-priority directory with a verdict on it installs `h` |
| `SnippetMerger.MaskWins` | src/lib.rs:147-153 | a mask in the highest-priority directory with a verdict on a name keeps the name out, whatever lower directories hold |
| `SnippetMerger.UndecidedAbsent` | src/lib.rs:127-144 | a name on which no directory has a verdict (directories that fail to open or list, errors, entries neither mask nor openable) is absent |
| `SnippetMerger.ListingVerdictLast` | src/lib.rs:140-159 | a listing's verdict on a name is that of its last item with a verdict, and it has none when no item has one |
| `SnippetMerger.UnlistedNameUntouched` | src/lib.rs:140-158 | a directory whose listing has no entry with a name leaves that name's mapping unchanged |
| `SnippetMerger.ResolvedIsListedEntry` | src/lib.rs:145-157 | every mapped handle is an entry of that very name, openable and not a mask, in a listed directory of the list |
| `SnippetMerger.NoticesNameUnlistable` | src/lib.rs:131-136 | a notice is logged exactly for the directories that open but cannot be listed, and it names the directory |
| `OrderedMap.Insert` | src/lib.rs:157 | inserting maps the key to the new handle, leaves every other key alone and keeps the keys ascending |
| `OrderedMap.Remove` | src/lib.rs:150 | removing drops the key, leaves every other key alone and keeps the keys ascending |
| `OrderedMap.GetAt` | src/lib.rs:55 | each entry met while iterating the ordered map is what a lookup of its key finds |
| `OrderedMap.GetIndex` | src/lib.rs:55 | every key a lookup finds is met while iterating the ordered map |
| `OrderedMap.LessTransitive` | src/lib.rs:121-122 | the key order is transitive |
| `OrderedMap.LessTotal` | src/lib.rs:121-122 | any two distinct keys are ordered one way or the other |
| `Motd.RunMotd` | src/lib.rs:43-60 | the output is the selected primary file, if any, followed by every merged snippet exactly once in strictly ascending name order, each with the handle `Resolve` gives its name; the notices are those of the merge |

## Left out

- `open_session` and the `pam_module!` hook (src/lib.rs:15-40): these adapt the code to the PAM runtime and map outcomes to PAM status codes.
- Building the syslog logger (src/lib.rs:20-29). The one notice at src/lib.rs:134 is the `notices` sequence. The critical log line on failure is left out.
- `io::copy` to standard output and its error path (src/lib.rs:50, 56). The model states which handles are copied and in what order, not the bytes. A write failure is never modelled, so `RunMotd` always succeeds.
- The real filesystem calls (`fs::read_link`, `fs::File::open`, `Dir::open`, `list_dir`, `read_link` and `open_file` relative to a directory). They are replaced by the observations recorded in `FileSystem.Fs`.
- Comparing link targets as `PathBuf` values, which goes component by component. The model compares the target text with `/dev/null` exactly.
- `to_string_lossy` on entry names. Names are plain strings.
- Closing file handles, including the handle an overwritten or removed snippet drops. This is Rust drop behaviour.
- The balanced-tree layout of `BTreeMap`. Only its map behaviour and its ordered iteration are modelled.
- `Args.ParseArgs` models `splitn(2, '=')` through `Args.SplitOnce` and takes the Rust library call as given.
