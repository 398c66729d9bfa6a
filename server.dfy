/** The data file and the request handlers of the work-hours server. Each
    handler makes sure the file exists, reads the whole list, changes it in
    memory and, when it mutates, writes the whole list back. */
module Server {
  import opened Entries

  /** The text held by an existing data file. `Blank` is the zero-length
      text; `Json(entries)` is the text that serialises `entries` as a JSON
      array, so reading it back gives `entries`. */
  datatype StoredText = Blank | Json(entries: seq<Entry>)

  datatype FileState = Missing | Present(text: StoredText)

  /** The outcome a handler reports to the client (200 or 404). */
  datatype Status = Success | NotFound

  /** `ensureDataFileExists`: a missing file is created holding the empty
      array; an existing file, even a blank one, is left as it is. */
  function Ensured(file: FileState): StoredText {
    match file
    case Missing => Json([])
    case Present(t) => t
  }

  /** `JSON.parse(data || "[]")`: the zero-length text is read as the empty
      array, any other text as the list it serialises. */
  function Load(text: StoredText): seq<Entry> {
    match text
    case Blank => []
    case Json(es) => es
  }

  /** A handler sees an empty list exactly when the file was missing, holds
      the zero-length text or holds the empty array; and making sure the
      file exists a second time writes nothing. */
  lemma FreshStoreListsEmpty(file: FileState)
    ensures Load(Ensured(file)) == []
        <==> file == Missing || file == Present(Blank) || file == Present(Json([]))
    ensures Ensured(Present(Ensured(file))) == Ensured(file)
  {
  }

  /** The array a handler holds after `JSON.parse`: add and update change it
      in place, delete replaces it by a filtered copy. */
  class EntryList {
    var entries: seq<Entry>

    constructor (loaded: seq<Entry>)
      ensures entries == loaded
    {
      entries := loaded;
    }

    /** `dataJson.push(newEntry)`. */
    method Push(newEntry: Entry)
      modifies this
      ensures entries == old(entries) + [newEntry]
    {
      entries := entries + [newEntry];
    }

    /** `dataJson[index] = entry`. */
    method Set(index: nat, entry: Entry)
      requires index < |entries|
      modifies this
      ensures entries == old(entries)[index := entry]
    {
      entries := entries[index := entry];
    }
  }

  /** The data file on disk, which every handler reads and rewrites whole. */
  class DataFile {
    var state: FileState

    constructor (initial: FileState)
      ensures state == initial
    {
      state := initial;
    }

    /** Creates the file with the empty array when it is missing and gives
        back the text it now holds. */
    method EnsureExists() returns (text: StoredText)
      modifies this
      ensures text == Ensured(old(state))
      ensures state == Present(text)
    {
      if state.Missing? {
        state := Present(Json([]));
      }
      text := state.text;
    }

    /** GET /getData: the whole list as stored. */
    method GetData() returns (list: seq<Entry>)
      modifies this
      ensures state == Present(Ensured(old(state)))
      ensures list == Load(Ensured(old(state)))
    {
      var text := EnsureExists();
      list := Load(text);
    }

    /** POST /addEntry: the entry goes to the end, whatever its date. */
    method AddEntry(newEntry: Entry) returns (status: Status)
      modifies this
      ensures status == Success
      ensures state == Present(Json(Load(Ensured(old(state))) + [newEntry]))
    {
      var text := EnsureExists();
      var dataJson := new EntryList(Load(text));
      dataJson.Push(newEntry);
      state := Present(Json(dataJson.entries));
      status := Success;
    }

    /** PUT /updateEntry/:date: merges the payload into the first entry with
        that date; with no such entry it answers not-found and does not
        write the file (beyond creating it when it was missing). */
    method UpdateEntry(date: string, updatedEntry: Entry) returns (status: Status)
      modifies this
      ensures Update(Load(Ensured(old(state))), date, updatedEntry).NoMatch? ==>
        status == NotFound && state == Present(Ensured(old(state)))
      ensures Update(Load(Ensured(old(state))), date, updatedEntry).Replaced? ==>
        status == Success && state == Present(Json(Update(Load(Ensured(old(state))), date, updatedEntry).entries))
    {
      var text := EnsureExists();
      var dataJson := new EntryList(Load(text));
      var entryIndex := FindIndex(dataJson.entries, date);
      if entryIndex == -1 {
        return NotFound;
      }
      dataJson.Set(entryIndex, Merge(dataJson.entries[entryIndex], updatedEntry));
      state := Present(Json(dataJson.entries));
      status := Success;
    }

    /** DELETE /deleteEntry/:date: drops every entry with that date and
        succeeds even when there is none. */
    method DeleteEntry(date: string) returns (status: Status)
      modifies this
      ensures status == Success
      ensures state == Present(Json(Remove(Load(Ensured(old(state))), date)))
    {
      var text := EnsureExists();
      var dataJson := new EntryList(Load(text));
      dataJson := new EntryList(Remove(dataJson.entries, date));
      state := Present(Json(dataJson.entries));
      status := Success;
    }
  }

  /** The create, list, update, list, delete, list sequence on a fresh
      store, as a client sees it through the handlers' contracts. */
  method Scenario() {
    var file := new DataFile(Missing);
    var entry: Entry := map[
      "date" := Str("2024-01-01"), "checkInTime" := Str("09:00"),
      "checkOutTime" := Str("17:00"), "leaveType" := Str(""),
      "notes" := Str(""), "isCompOffDay" := Bool(false)];
    var status := file.AddEntry(entry);
    var list := file.GetData();
    assert list == [entry];

    var payload: Entry := map["notes" := Str("late arrival")];
    UpdateReplacesFirstMatch(list, "2024-01-01", payload, 0);
    assert Merge(entry, payload) == entry["notes" := Str("late arrival")];
    status := file.UpdateEntry("2024-01-01", payload);
    assert status == Success;
    list := file.GetData();
    assert list == [entry["notes" := Str("late arrival")]];

    status := file.DeleteEntry("2024-01-01");
    list := file.GetData();
    assert list == [];
  }
}
