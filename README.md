# GSyncMonitorSearcher, modelled in Dafny

The searcher checks NVIDIA's list of G-Sync monitors once per run. It finds
the JSON endpoint the listing page loads its data from, builds one
identifier `"<manufacturer> <model>"` per listed monitor, compares them with
the identifiers saved by the previous run in `monitors.txt`, e-mails the
new ones, and then overwrites `monitors.txt` with the current listing.

The model keeps that pipeline and drops its I/O:

- `text.dfy` (module `Text`): the Python string operations the program
  relies on: `str.strip()` with Python's whitespace set, `sep.join`,
  `readlines()` on a text file and the substring test `w in t`. `Strip` is
  characterised by `StripIsTrimmedSlice` together with `IsStripped`, and
  `ReadLines` by its contract. `Split` is not used by the program: it is
  the inverse that reads a `'\n'.join` back (the saved file at l.48, the
  body at l.52), and `JoinSplit`/`SplitJoin` prove the two inverse.
- `endpoint.dfy` (module `Endpoint`): `get_data_url` on the page's inline
  scripts. `Search` is `re.search('/content/.*\.json', t)` for this one
  pattern: the leftmost start that has a match, with `.*` greedy and not
  crossing a newline. `Locate` is the recursive specification.
  `LocateDataUrl` is the source's `for` loop with its early return, proved
  equal to `Locate`.
- `monitors.dfy` (module `Monitors`): identifiers, the strip
  comprehensions, the snapshot file format (`SaveText` writes it, `Load`
  reads it, and a missing file reads as `[]`), the difference, and the
  notification body. It also proves when save-then-load gives back the
  listing.
- `orchestrator.dfy` (module `Orchestrator`): class `Searcher` holds the
  program's persistent effects. `saveFile` is the snapshot file's contents
  (`None` while it does not exist), and `outbox` lists the bodies of the
  notifications sent. `Run` is `main`: locate, fetch, strip, compare,
  notify when the difference is non-empty, then save unconditionally. The
  HTTP GET of the listing is the parameter `fetch`.

The snapshot round trip holds only under conditions, and the model states
them exactly. `SnapshotRoundTrip` proves that loading what was saved gives
the listing back, minus its last entry when that entry is empty (`["a",
""]` is written as `"a\n"` and reads back as `["a"]`). This holds when
every entry is a single line with no `\n` or `\r` and is already stripped.
`RerunDifference` draws the consequence: rerunning on an unchanged listing
reports nothing, except the empty identifier when only the last entry is
empty.

Three behaviours of the code worth knowing:

- Locating the endpoint in a marked script with no `/content/...json` path
  does not produce an unusable URL. `match.group(0)` fails at once on the
  missing match (`NoPathInMarkedScript`), and `Run` stops before anything
  is sent or saved.
- Save-then-load does not just trim the entries. It also loses an empty
  last entry.
- The `get_monitors` docstring speaks of `<manufacturer>_<model>`. The code
  joins the two fields with a space.

## Model

| member | source | states |
|---|---|---|
| `Text.Strip` | main.py:40 | the result of `s.strip()` starts and ends with a non-whitespace character (or is empty), and is no longer than `s` |
| `Text.StripIsTrimmedSlice` | main.py:40 | `s.strip()` is a slice of `s` with only whitespace before and after it |
| `Text.StripFixpoint` | main.py:71 | stripping leaves a string unchanged exactly when neither of its ends is whitespace (so stripping is idempotent) |
| `Text.StripLineBreak` | main.py:40 | a stripped entry followed by its line's newline strips back to the entry |
| `Text.ReadLines` | main.py:40 | `readlines()`: the lines concatenate to the file text; each is non-empty, has a newline only as its last character, and every line but the last ends in a newline |
| `Text.ReadLinesCons` | main.py:40 | `readlines()` cuts at the first newline, keeps it with the line, and continues after it |
| `Text.ReadLinesSingle` | main.py:40 | text without a newline is one line, or none when it is empty |
| `Text.StripLineNoBreak` | main.py:40 | a stripped line from `readlines()` contains no newline |
| `Text.Join` | main.py:48 | `sep.join(xs)`: an empty list gives `""`; otherwise the length is that of the pieces plus one separator between each two |
| `Text.Split` | main.py:52 | splitting on the separator, the inverse used to read back the `'\n'.join` of l.52: at least one piece, and no piece contains the separator |
| `Text.JoinSplit` | main.py:48 | joining the pieces of a split by the separator gives back the text |
| `Text.SplitJoin` | main.py:52 | splitting a non-empty join of separator-free pieces gives back the pieces |
| `Endpoint.MatchOnLine` | main.py:26 | `/content/.*\.json` matches from `i` to `.json` at `j` exactly when `j` lies on the line where `/content/` ends (`.` excludes newline) |
| `Endpoint.Greedy` | main.py:26 | the greedy `.*` ends the match at the last `.json` on that line; none means no match from `i` |
| `Endpoint.SearchFrom` | main.py:26 | the search returns a match that starts leftmost and, from that start, ends last; `None` when no match starts at or after `from` |
| `Endpoint.Search` | main.py:26 | `re.search` finds nothing exactly when the text has no match; otherwise it returns a match, no match starts further left, and from its start no match ends later (greedy `.*`) |
| `Endpoint.PrefixedMatch` | main.py:27 | the domain followed by a matched path is an endpoint URL: after the domain, the pattern matches the whole rest |
| `Endpoint.Marked` | main.py:25 | `script and marker in script` holds exactly when the script contains the marker (the emptiness test never changes the outcome) |
| `Endpoint.FromMarked` | main.py:26-27 | for the marked script: a URL exactly when the script has a match, and then the URL is the domain followed by exactly the slice `Search` found (an endpoint URL); otherwise the failure of `match.group(0)` |
| `Endpoint.FirstMarked` | main.py:24-25 | the index of the first script that is non-empty and contains the marker, or the number of scripts when there is none |
| `Endpoint.Locate` | main.py:24-27 | `None` exactly when no script is marked; otherwise the outcome is decided by the first marked script alone |
| `Endpoint.LocateDataUrl` | main.py:19-27 | the loop with its early return yields what `Locate` specifies |
| `Monitors.Identifier` | main.py:34 | an identifier is the manufacturer, one space, then the model |
| `Monitors.Identifiers` | main.py:34 | one identifier per row, in row order, each `manufacturer + " " + model` |
| `Monitors.StripAll` | main.py:40 | the comprehension strips every element, keeping length and order; every result is stripped |
| `Monitors.CurrentMonitors` | main.py:71 | the compared and saved listing has one stripped identifier per row, in row order |
| `Monitors.Load` | main.py:38-42 | a missing file reads as `[]`; otherwise one entry per line, in file order, each the line stripped; no entry contains a newline |
| `Monitors.LoadLine` | main.py:40 | a stripped one-line entry followed by a newline loads as that entry, followed by what the rest loads as |
| `Monitors.LoadSingle` | main.py:40 | text of one stripped line loads as that line, or as nothing when it is empty |
| `Monitors.SaveText` | main.py:48 | an empty listing writes an empty file; a listing of newline-free entries splits back into exactly those entries |
| `Monitors.DropEmptyLastCons` | main.py:48 | losing an empty last entry never touches the entries before it |
| `Monitors.SnapshotRoundTrip` | main.py:38-48 | for single-line stripped entries, loading what `save_monitors` wrote returns the listing, minus an empty last entry |
| `Monitors.SnapshotRoundTripExact` | main.py:38-48 | with a non-empty last entry (or no entry), save-then-load returns exactly the listing |
| `Monitors.Difference` | main.py:44 | an identifier is new exactly when it is in the current listing and not in the previous one; against an empty snapshot everything is new |
| `Monitors.RerunDifference` | main.py:44-48 | comparing a listing with its own saved snapshot finds nothing, except `""` when it is the last entry only |
| `Monitors.QuietRerun` | main.py:44-48 | under the round-trip conditions, rerunning on an unchanged listing finds nothing new |
| `Monitors.AddedMonitorIsNew` | main.py:44-48 | adding one monitor to the saved listing makes it, and only it, new |
| `Monitors.Body` | main.py:51-52 | the body starts with the title and a blank line; with newline-free identifiers it splits into the title, an empty line, then exactly the identifiers in the given order |
| `Monitors.TitleThenLines` | main.py:51-52 | a one-line title, a blank line and newline-joined one-line entries split back into the title, `""` and the entries |
| `Monitors.BodyLines` | main.py:51-52 | for an iteration order of the new identifiers, a string is a line after the body's header exactly when it is a new identifier |
| `Monitors.Enumerate` | main.py:52 | iterating the difference set lists each element exactly once |
| `Orchestrator.Searcher.CompareMonitors` | main.py:36-44 | new monitors are those of the listing that the snapshot file does not list; with no file, all of them |
| `Orchestrator.Searcher.SaveMonitors` | main.py:46-48 | the file is replaced by the newline-joined listing, whatever it held before |
| `Orchestrator.Searcher.SendEmail` | main.py:50-52 | exactly one notification is added, and its body is the header followed by the new identifiers in some iteration order |
| `Orchestrator.Searcher.Run` | main.py:69-75 | without a usable endpoint, nothing is sent or saved. Otherwise it notifies exactly when the difference against the old snapshot is non-empty, and always overwrites the snapshot with the full stripped listing |
| `Orchestrator.RunTwice` | main.py:69-75 | with the page and listing unchanged, and given single-line identifiers and a non-empty last one, the second of two consecutive runs finds nothing new and sends nothing: the only notification is the first run's, sent exactly when that run's difference is non-empty, and the snapshot ends as the saved listing |

## Left out

- Both HTTP GETs and the user-agent header (main.py:15, 22, 32) are network I/O. The page's script texts are an input to `Run`, and the listing fetched from a URL is the function parameter `fetch`.
- BeautifulSoup's HTML parsing (main.py:23-24) is an external library. The page is modelled as the sequence of its scripts' texts.
- `json.loads` and the dictionary lookups (main.py:33-34) are a library parser. The listing is a sequence of `Row` values. Malformed JSON and missing keys are uncaught exceptions in the source and are not modelled. The model takes both fields as strings; how the f-string at l.34 formats a non-string value (`None` as `"None"`, a number as its digits) is not modelled.
- The SMTP session, STARTTLS, login, the MIME message and `del msg` (main.py:55-66) are network I/O. Sending is modelled as appending the body to `outbox`. A failing send is not modelled.
- `print` of the body (main.py:53) and the `config` import (main.py:12) are output and configuration plumbing.
- Only the one fixed pattern at main.py:26 is modelled, not regular expressions in general.
- The snapshot file is opened at main.py:39 and main.py:47 in the platform's default text encoding, and the model treats its contents as already-decoded text. An identifier the encoding cannot represent makes `f.write` at l.48 raise after `open(..., 'w')` has truncated the file (and after the e-mail went out), and an undecodable file makes `compare_monitors` raise; neither failure is modelled. `SaveMonitors` always succeeds, and `SnapshotRoundTrip`, `SnapshotRoundTripExact`, `RerunDifference`, `QuietRerun` and `RunTwice` hold only for an encoding that represents every identifier (UTF-8 does, since Dafny's `char` has no lone surrogates).
- Universal-newline translation is not modelled. On reading, `\r` and `\r\n` become `\n`, and on writing, `\n` becomes the platform's line separator. The round-trip lemmas require entries without `\r` or `\n` instead.
- File-system errors other than a missing snapshot (permissions, a crash in mid-write) are not modelled. A failed `requests.get(None)` after `get_data_url` returned `None` is modelled as `Run` stopping with `Aborted(NoMarkedScript)`.
- Python strings may hold lone surrogate code points, and Dafny's `char` cannot. No identifier here needs them.
