/** The entry list that the work-hours server keeps in its data file, and the
    in-memory transformations its handlers apply to it: lookup of the first
    entry with a given date, the shallow merge of an update payload, and the
    filter that deletes every entry with a given date. */
module Entries {

  /** A JSON field value, as far as the handlers can tell values apart: the
      key comparison only ever succeeds on a string, so every value that is
      neither a string nor a boolean (a number, null, an array, an object)
      is carried by its serialised text. */
  datatype Value = Str(s: string) | Bool(b: bool) | Other(json: string)

  /** An entry is a loosely-typed record: nothing checks its fields. */
  type Entry = map<string, Value>

  /** The field that update and delete use as the key. */
  const DateField: string := "date"

  /** `entry.date === key`: true only when the entry has a `date` field
      holding exactly the string `key`; a missing or non-string `date`
      never matches. */
  predicate DateMatches(entry: Entry, key: string) {
    DateField in entry && entry[DateField] == Str(key)
  }

  /** `entries.findIndex(entry => entry.date === key)`: the first position
      whose entry matches, or -1 when there is none. */
  function FindIndex(entries: seq<Entry>, key: string): (r: int)
    ensures -1 <= r < |entries|
    ensures r == -1 <==> forall j | 0 <= j < |entries| :: !DateMatches(entries[j], key)
    ensures r != -1 ==> DateMatches(entries[r], key)
    ensures r != -1 ==> forall j | 0 <= j < r :: !DateMatches(entries[j], key)
  {
    if entries == [] then -1
    else if DateMatches(entries[0], key) then 0
    else
      var rest := FindIndex(entries[1..], key);
      if rest == -1 then -1 else rest + 1
  }

  /** `{ ...stored, ...payload }`: every field of the payload wins, every
      field only the stored entry has is kept. */
  function Merge(stored: Entry, payload: Entry): (r: Entry)
    ensures r.Keys == stored.Keys + payload.Keys
    ensures forall f | f in payload :: r[f] == payload[f]
    ensures forall f | f in stored && f !in payload :: r[f] == stored[f]
  {
    stored + payload
  }

  /** What the update handler does to the loaded list: either no entry has
      the key (and nothing is written), or the list with its first matching
      entry replaced by the merge. */
  datatype UpdateOutcome = NoMatch | Replaced(entries: seq<Entry>)

  function Update(entries: seq<Entry>, key: string, payload: Entry): (r: UpdateOutcome)
    ensures r.NoMatch? <==> forall j | 0 <= j < |entries| :: !DateMatches(entries[j], key)
    ensures r.Replaced? ==> |r.entries| == |entries|
  {
    var i := FindIndex(entries, key);
    if i == -1 then NoMatch
    else Replaced(entries[i := Merge(entries[i], payload)])
  }

  /** `entries.filter(entry => entry.date !== key)`. */
  function Remove(entries: seq<Entry>, key: string): (r: seq<Entry>)
    ensures |r| <= |entries|
    ensures forall j | 0 <= j < |r| :: !DateMatches(r[j], key)
  {
    if entries == [] then []
    else if DateMatches(entries[0], key) then Remove(entries[1..], key)
    else [entries[0]] + Remove(entries[1..], key)
  }

  /** The number of entries whose date is the key. */
  function CountMatches(entries: seq<Entry>, key: string): (n: nat)
    ensures n <= |entries|
    ensures n == 0 <==> forall j | 0 <= j < |entries| :: !DateMatches(entries[j], key)
  {
    if entries == [] then 0
    else (if DateMatches(entries[0], key) then 1 else 0) + CountMatches(entries[1..], key)
  }

  /** `sub` can be obtained from `s` by dropping elements, keeping the order
      of the rest. */
  ghost predicate Subsequence(sub: seq<Entry>, s: seq<Entry>)
    decreases |s|
  {
    if sub == [] then true
    else if s == [] then false
    else (sub[0] == s[0] && Subsequence(sub[1..], s[1..])) || Subsequence(sub, s[1..])
  }

  // ---------------------------------------------------------------------
  // Add: push onto the end, with no duplicate-date check

  /** Appending counts the new entry among the matches of its date: an
      entry whose date is already taken is still added. */
  lemma {:induction false} AddCountsDuplicates(entries: seq<Entry>, newEntry: Entry, key: string)
    ensures CountMatches(entries + [newEntry], key)
         == CountMatches(entries, key) + (if DateMatches(newEntry, key) then 1 else 0)
  {
    if entries == [] {
      assert entries + [newEntry] == [newEntry];
    } else {
      assert (entries + [newEntry])[1..] == entries[1..] + [newEntry];
      AddCountsDuplicates(entries[1..], newEntry, key);
    }
  }

  /** Appending never changes which entry a later update targets, unless no
      entry had the date before, in which case the new last entry is it. */
  lemma {:induction false} AddKeepsFirstMatch(entries: seq<Entry>, newEntry: Entry, key: string)
    ensures FindIndex(entries + [newEntry], key)
         == if FindIndex(entries, key) != -1 then FindIndex(entries, key)
            else if DateMatches(newEntry, key) then |entries|
            else -1
  {
    if entries == [] {
      assert entries + [newEntry] == [newEntry];
    } else {
      assert (entries + [newEntry])[1..] == entries[1..] + [newEntry];
      AddKeepsFirstMatch(entries[1..], newEntry, key);
    }
  }

  // ---------------------------------------------------------------------
  // Update: first match only, shallow merge

  /** The update replaces exactly the first matching position with the
      merge and keeps every other position, including later entries with the
      same date. */
  lemma UpdateReplacesFirstMatch(entries: seq<Entry>, key: string, payload: Entry, i: nat)
    requires i < |entries| && DateMatches(entries[i], key)
    requires forall j | 0 <= j < i :: !DateMatches(entries[j], key)
    ensures Update(entries, key, payload).Replaced?
    ensures var after := Update(entries, key, payload).entries;
      && |after| == |entries|
      && after[i] == Merge(entries[i], payload)
      && forall j | 0 <= j < |entries| && j != i :: after[j] == entries[j]
  {
  }

  /** The payload may rename the entry: when it carries a `date`, the
      merged entry answers to that date and to no other; otherwise it keeps
      answering to the stored date. */
  lemma MergeRekeys(stored: Entry, payload: Entry, key: string)
    ensures DateField in payload ==> (DateMatches(Merge(stored, payload), key) <==> payload[DateField] == Str(key))
    ensures DateField !in payload ==> (DateMatches(Merge(stored, payload), key) <==> DateMatches(stored, key))
  {
  }

  /** Replacing one position changes the number of matches only by what
      that position contributed before and after. */
  lemma {:induction false} CountAfterReplace(entries: seq<Entry>, i: nat, x: Entry, key: string)
    requires i < |entries|
    ensures CountMatches(entries[i := x], key)
         == CountMatches(entries, key)
            - (if DateMatches(entries[i], key) then 1 else 0)
            + (if DateMatches(x, key) then 1 else 0)
  {
    if i > 0 {
      assert entries[i := x][1..] == entries[1..][i - 1 := x];
      CountAfterReplace(entries[1..], i - 1, x, key);
    } else {
      assert entries[i := x][1..] == entries[1..];
    }
  }

  // ---------------------------------------------------------------------
  // Delete: every match goes, the rest stays in order

  /** Delete is a filter over concatenations: it works piecewise. */
  lemma {:induction false} RemoveAppend(a: seq<Entry>, b: seq<Entry>, key: string)
    ensures Remove(a + b, key) == Remove(a, key) + Remove(b, key)
  {
    if a == [] {
      assert a + b == b;
    } else {
      assert (a + b)[1..] == a[1..] + b;
      RemoveAppend(a[1..], b, key);
    }
  }

  /** Delete removes exactly the matching entries: each entry occurs in the
      result as often as in the input when its date differs from the key,
      and not at all when it matches. */
  lemma {:induction false} RemoveKeepsNonMatching(entries: seq<Entry>, key: string, e: Entry)
    ensures multiset(Remove(entries, key))[e]
         == if DateMatches(e, key) then 0 else multiset(entries)[e]
  {
    if entries != [] {
      RemoveKeepsNonMatching(entries[1..], key, e);
      assert entries == [entries[0]] + entries[1..];
    }
  }

  /** What delete keeps stays in its original relative order. */
  lemma {:induction false} RemoveIsSubsequence(entries: seq<Entry>, key: string)
    ensures Subsequence(Remove(entries, key), entries)
  {
    if entries != [] {
      RemoveIsSubsequence(entries[1..], key);
      var r := Remove(entries, key);
      if !DateMatches(entries[0], key) {
        assert r[0] == entries[0] && r[1..] == Remove(entries[1..], key);
      } else if r != [] {
        assert r == Remove(entries[1..], key);
      }
    }
  }

  /** Delete shortens the list by exactly the number of matches. */
  lemma {:induction false} RemoveLength(entries: seq<Entry>, key: string)
    ensures |Remove(entries, key)| == |entries| - CountMatches(entries, key)
  {
    if entries != [] {
      RemoveLength(entries[1..], key);
    }
  }

  /** Delete succeeds whether or not anything matches, and it leaves the
      list unchanged exactly when nothing matches. */
  lemma {:induction false} RemoveUnchangedIff(entries: seq<Entry>, key: string)
    ensures Remove(entries, key) == entries
        <==> forall j | 0 <= j < |entries| :: !DateMatches(entries[j], key)
  {
    RemoveLength(entries, key);
    if forall j | 0 <= j < |entries| :: !DateMatches(entries[j], key) {
      RemoveNothingMatches(entries, key);
    }
  }

  lemma {:induction false} RemoveNothingMatches(entries: seq<Entry>, key: string)
    requires forall j | 0 <= j < |entries| :: !DateMatches(entries[j], key)
    ensures Remove(entries, key) == entries
  {
    if entries != [] {
      RemoveNothingMatches(entries[1..], key);
    }
  }

  /** Deleting the same date twice is the same as deleting it once. */
  lemma {:induction false} RemoveIdempotent(entries: seq<Entry>, key: string)
    ensures Remove(Remove(entries, key), key) == Remove(entries, key)
  {
    RemoveNothingMatches(Remove(entries, key), key);
  }

  /** The asymmetry between the two keyed operations: with two entries
      sharing a date, the update leaves the later one in place and still
      matching, while the delete leaves no entry with that date. */
  lemma UpdateFirstDeleteAll(entries: seq<Entry>, key: string, payload: Entry, i: nat, j: nat)
    requires i < j < |entries|
    requires DateMatches(entries[i], key) && DateMatches(entries[j], key)
    ensures Update(entries, key, payload).Replaced?
    ensures Update(entries, key, payload).entries[j] == entries[j]
    ensures CountMatches(Update(entries, key, payload).entries, key) >= CountMatches(entries, key) - 1 >= 1
    ensures CountMatches(Remove(entries, key), key) == 0
  {
    var k := FindIndex(entries, key);
    assert k != -1 && k <= i;
    UpdateReplacesFirstMatch(entries, key, payload, k);
    CountAfterReplace(entries, k, Merge(entries[k], payload), key);
    CountAtLeastTwo(entries, key, i, j);
  }

  lemma {:induction false} CountAtLeastTwo(entries: seq<Entry>, key: string, i: nat, j: nat)
    requires i < j < |entries|
    requires DateMatches(entries[i], key) && DateMatches(entries[j], key)
    ensures CountMatches(entries, key) >= 2
  {
    if i > 0 {
      CountAtLeastTwo(entries[1..], key, i - 1, j - 1);
    } else {
      assert DateMatches(entries[1..][j - 1], key);
    }
  }
}
