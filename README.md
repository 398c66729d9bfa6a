# Work-hours entry store

A Dafny model of the storage core of a small work-hours server. The server
keeps an ordered list of attendance entries (date, check-in and check-out
times, leave type, notes, comp-off flag) in one JSON data file. Each HTTP
handler makes sure the file exists, reads the whole list, transforms it in
memory and, for the mutating handlers, writes the whole list back.

- `entries.dfy`, module `Entries`: the pure part. An entry is a loosely
  typed record, `map<string, Value>`, where `Value` is a string, a boolean
  or any other JSON value. `DateMatches` is JavaScript's
  `entry.date === key`: it holds only when the entry has a `date` field
  holding exactly that string, so a missing or non-string `date` never
  matches. On top of it the module defines the lookup of the first match
  (`findIndex`), the shallow merge `{ ...stored, ...payload }`, the update
  outcome (not-found, or the list with the first match merged), and the
  delete filter. It also proves the lemmas that pin down the asymmetry
  between update and delete: update touches the first match only, while
  delete removes every match.
- `server.dfy`, module `Server`: the imperative part. `DataFile` holds the
  state of the data file and has one method per handler. `EntryList` is the
  array the handler gets from `JSON.parse`. Add pushes onto it in place and
  update assigns one index in place. Delete rebinds the handler's variable
  to a filtered copy, so the model builds a new list. The file's text is
  abstracted as `Blank` (the zero-length text) or `Json(entries)` (the text
  that serialises `entries`).

## Model

| member | source | states |
|---|---|---|
| `Entries.FindIndex` | server.js:75 | -1 exactly when no entry's `date` is the key; otherwise an index whose entry matches, with no match before it |
| `Entries.Merge` | server.js:82 | the merged entry's fields are the union of both; payload fields take the payload's value; every other field keeps the stored value |
| `Entries.Update` | server.js:74-82 | not-found exactly when no entry's `date` is the key; otherwise the list keeps its length |
| `Entries.UpdateReplacesFirstMatch` | server.js:75-82 | with `i` the first matching position, update succeeds, puts the merge at `i` and leaves every other position, later same-date entries included, unchanged |
| `Entries.MergeRekeys` | server.js:82 | a payload with a `date` moves the entry to that date and to no other; without one, the entry keeps answering to its stored date |
| `Entries.Remove` | server.js:107 | no entry of the result has the key as its date, and the result is no longer than the input |
| `Entries.RemoveKeepsNonMatching` | server.js:107 | each entry occurs in the result as often as in the input when its date differs from the key, and never when it matches |
| `Entries.RemoveIsSubsequence` | server.js:107 | the kept entries appear in their original relative order |
| `Entries.RemoveAppend` | server.js:107 | filtering a concatenation is the concatenation of the filtered parts |
| `Entries.RemoveLength` | server.js:107 | delete shortens the list by exactly the number of entries whose date is the key |
| `Entries.RemoveNothingMatches` | server.js:107 | when no entry matches, delete returns the list unchanged |
| `Entries.RemoveUnchangedIff` | server.js:107-115 | delete leaves the list unchanged if and only if no entry matches |
| `Entries.RemoveIdempotent` | server.js:107 | deleting a date twice equals deleting it once |
| `Entries.UpdateFirstDeleteAll` | server.js:75-107 | with two entries sharing a date, update leaves the later one untouched and at most one match is lost, while delete leaves no match at all |
| `Entries.AddCountsDuplicates` | server.js:48-49 | appending adds one to the matches of the new entry's date even when that date is already taken: there is no uniqueness check |
| `Entries.AddKeepsFirstMatch` | server.js:49 | appending never changes which entry a later update targets, unless nothing matched before and the new entry does, which then sits last |
| `Server.FreshStoreListsEmpty` | server.js:18-31 | after the existence check, a handler reads an empty list if and only if the file was missing, held the zero-length text or held the empty array; a second existence check changes nothing |
| `Server.EntryList.constructor` | server.js:48 | the in-memory list is the loaded list |
| `Server.EntryList.Push` | server.js:49 | the new list is the old list with the entry appended |
| `Server.EntryList.Set` | server.js:82 | only the given index changes, to the given entry |
| `Server.DataFile.EnsureExists` | server.js:18-22 | the file now exists and holds what it held before, or the empty array if it was missing |
| `Server.DataFile.GetData` | server.js:25-33 | returns the stored list; the only write is the creation of a missing file |
| `Server.DataFile.AddEntry` | server.js:36-59 | succeeds and stores the loaded list with the entry appended |
| `Server.DataFile.UpdateEntry` | server.js:62-92 | with no match: not-found, and the file is as the existence check left it (no write); otherwise success and the file holds the list with the first match merged |
| `Server.DataFile.DeleteEntry` | server.js:95-117 | always succeeds and stores the loaded list without any entry whose date is the key |

`Server.Scenario` is a client of the handler contracts. It runs the
sequence create, list, update, list, delete, list on a fresh store and
asserts what each list returns.

Two details of the code that the model keeps:

- Text holding only whitespace does not read as empty. `data || "[]"`
  (server.js:48) replaces only the zero-length string, and `JSON.parse`
  rejects whitespace. `Blank` is the zero-length text only.
- Delete removes every match, not only the first: server.js:107 filters.

## Left out

- JSON parsing and serialisation: `Json(entries)` stands for the text
  `JSON.stringify(entries, null, 2)`, and reading it back is assumed to give
  `entries`. Malformed text makes `JSON.parse` throw inside the read
  callback with no handler, so it is not modelled.
- A data file holding valid JSON that is not an array (`{}`, `null`, `5`)
  is not modelled. It parses at server.js:48, 74 and 106, and then `push`,
  `findIndex` or `filter` throws, while `/getData` returns the value as it
  is (server.js:31). `StoredText` holds only the zero-length text or a
  serialised array.
- Strings are sequences of Unicode scalar values, while JavaScript's `===`
  compares UTF-16 code units. A lone surrogate (a `\ud800` escape in the
  file or the path) cannot be represented, so keys and field values holding
  one are not modelled.
- File I/O failures: the 500 responses for read and write errors are not
  modelled. Because the handler checks that the file exists just before
  reading it, a sequential run never hits the missing-file read error.
- Concurrency: two requests may interleave their read and write and lose
  an update. The handlers are modelled as atomic steps.
- Express setup, routing, static files, body parsing and the JSON response
  bodies are not modelled. Only the outcome is kept, as `Success` or
  `NotFound`.
- The `console.log` of a new entry is a debug trace and is not modelled.
- `editEntry` and `deleteEntry` (server.js:119-181) are browser code
  (`document`, `fetch`, `alert`) that happens to sit in the server file.
  They are not part of this model.
- Entries and payloads that are not JSON objects (an array body, a `null`
  in a hand-edited file) are not modelled. Spreading an array would add
  index-named fields, and reading `.date` from `null` throws.
- Field order inside an entry is not modelled. A `map` has no order, while
  JavaScript keeps insertion order, which only shows in the serialised
  text.
