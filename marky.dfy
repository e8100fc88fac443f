// The fallback timer of the bundled `marky` package, used when the host has
// no usable `performance` API: `mark` records a start time per name, `stop`
// turns it into a measure entry and files it into a list kept sorted by start
// time with a binary search. The clock is a parameter.
module Marky {
  import opened Wrappers

  /** A measure entry; its `entryType` is always 'measure'. */
  datatype Entry = Entry(startTime: int, name: string, duration: int)

  const EmptyName := "name must be non-empty"

  function UnknownMark(name: string): string
  {
    "no known mark: " + name
  }

  predicate Sorted(s: seq<Entry>)
  {
    forall i, j :: 0 <= i < j < |s| ==> s[i].startTime <= s[j].startTime
  }

  /** The number of leading entries that start strictly before `t`. */
  function Lead(s: seq<Entry>, t: int): (n: nat)
    ensures n <= |s|
    ensures forall k :: 0 <= k < n ==> s[k].startTime < t
    ensures n < |s| ==> s[n].startTime >= t
  {
    if s == [] || s[0].startTime >= t then 0 else 1 + Lead(s[1..], t)
  }

  /** In a sorted list, the place between the entries before `t` and the
      others is unique. */
  lemma LeadUnique(s: seq<Entry>, t: int, low: nat)
    requires Sorted(s) && low <= |s|
    requires low > 0 ==> s[low - 1].startTime < t
    requires low < |s| ==> s[low].startTime >= t
    ensures low == Lead(s, t)
  {
  }

  /** The list after `insertSorted(arr, item)`: the item goes in after the
      entries that start strictly before it. */
  function Inserted(s: seq<Entry>, item: Entry): seq<Entry>
  {
    var n := Lead(s, item.startTime);
    s[..n] + [item] + s[n..]
  }

  /** Inserting keeps the list sorted. */
  lemma InsertedSorted(s: seq<Entry>, item: Entry)
    requires Sorted(s)
    ensures Sorted(Inserted(s, item))
  {
    var n := Lead(s, item.startTime);
    var r := Inserted(s, item);
    forall i, j | 0 <= i < j < |r|
      ensures r[i].startTime <= r[j].startTime
    {
      if j < n || i > n {
        assert r[i] == s[if i < n then i else i - 1] && r[j] == s[if j < n then j else j - 1];
      } else if i == n {
        assert r[j] == s[j - 1];
      } else if i < n && j == n {
        assert r[i] == s[i];
      } else {
        assert r[i] == s[i] && r[j] == s[j - 1];
      }
    }
  }

  /** The new list is the old one plus the item, one entry longer. */
  lemma InsertedContents(s: seq<Entry>, item: Entry)
    ensures multiset(Inserted(s, item)) == multiset(s) + multiset{item}
    ensures |Inserted(s, item)| == |s| + 1
  {
    var n := Lead(s, item.startTime);
    assert s == s[..n] + s[n..];
  }

  /** The item goes before every entry with the same start time. */
  lemma InsertedBeforeEqual(s: seq<Entry>, item: Entry, k: nat)
    requires k < |s| && s[k].startTime == item.startTime
    ensures Inserted(s, item)[k + 1] == s[k]
    ensures Inserted(s, item)[Lead(s, item.startTime)] == item
    ensures Lead(s, item.startTime) <= k
  {
  }

  /** The binary search of `insertSorted`. `(low + high) >>> 1` is the
      halved sum for lists under 2^31 entries. */
  method FindSlot(s: seq<Entry>, t: int) returns (low: nat)
    ensures low <= |s|
    ensures low > 0 ==> s[low - 1].startTime < t
    ensures low < |s| ==> s[low].startTime >= t
    ensures Sorted(s) ==> low == Lead(s, t)
  {
    low := 0;
    var high := |s|;
    while low < high
      invariant 0 <= low <= high <= |s|
      invariant low > 0 ==> s[low - 1].startTime < t
      invariant high < |s| ==> s[high].startTime >= t
    {
      var mid := (low + high) / 2;
      if s[mid].startTime < t {
        low := mid + 1;
      } else {
        high := mid;
      }
    }
    if Sorted(s) {
      LeadUnique(s, t, low);
    }
  }

  /** What `stop(name)` returns at time `now`: the measure since the last
      `mark(name)`. A missing mark, and a mark recorded at time 0 (which
      is falsy), are both unknown. */
  function StopEntry(marks: map<string, int>, name: string, now: int): (r: Result<Entry, string>)
    ensures r.Ok? <==> name != "" && name in marks && marks[name] != 0
    ensures r.Ok? ==> r.value.startTime == marks[name] && r.value.name == name
                      && r.value.startTime + r.value.duration == now
    ensures name == "" ==> r == Err(EmptyName)
    ensures name != "" && r.Err? ==> r == Err(UnknownMark(name))
  {
    if name == "" then Err(EmptyName)
    else if name !in marks || marks[name] == 0 then Err(UnknownMark(name))
    else Ok(Entry(marks[name], name, now - marks[name]))
  }

  /** `mark(name)` at `t0` then `stop(name)` at `t1` measures `t1 - t0`. */
  lemma MarkThenStop(marks: map<string, int>, name: string, t0: int, t1: int)
    requires name != "" && t0 != 0
    ensures StopEntry(marks[name := t0], name, t1) == Ok(Entry(t0, name, t1 - t0))
  {
  }

  /** A later `mark` of another name leaves a measure unchanged. */
  lemma OtherMarkIgnored(marks: map<string, int>, name: string, other: string, t: int, now: int)
    requires other != name
    ensures StopEntry(marks[other := t], name, now) == StopEntry(marks, name, now)
  {
  }

  /** The module's state: the marks by name (stored under `'$' + name`,
      which is one key per name) and the sorted measures. */
  class Timer {
    var marks: map<string, int>
    var entries: seq<Entry>

    ghost predicate Valid()
      reads this
    {
      Sorted(entries)
    }

    constructor()
      ensures marks == map[] && entries == []
      ensures Valid()
    {
      marks := map[];
      entries := [];
    }

    /** `mark(name)` at time `now`. */
    method Mark(name: string, now: int) returns (r: Result<(), string>)
      modifies this
      ensures name == "" ==> r == Err(EmptyName) && marks == old(marks)
      ensures name != "" ==> r == Ok(()) && marks == old(marks)[name := now]
      ensures entries == old(entries)
    {
      if name == "" {
        return Err(EmptyName);
      }
      marks := marks[name := now];
      r := Ok(());
    }

    /** `insertSorted(entries, item)`: the binary search, then the splice. */
    method Insert(item: Entry)
      requires Valid()
      modifies this
      ensures entries == Inserted(old(entries), item)
      ensures marks == old(marks)
      ensures Valid()
    {
      var low := FindSlot(entries, item.startTime);
      InsertedSorted(entries, item);
      entries := entries[..low] + [item] + entries[low..];
    }

    /** `stop(name)` at time `now`: on success the entry is also filed. */
    method Stop(name: string, now: int) returns (r: Result<Entry, string>)
      requires Valid()
      modifies this
      ensures r == StopEntry(old(marks), name, now)
      ensures entries == (if r.Ok? then Inserted(old(entries), r.value) else old(entries))
      ensures marks == old(marks)
      ensures Valid()
    {
      if name == "" {
        return Err(EmptyName);
      }
      if name !in marks || marks[name] == 0 {
        return Err(UnknownMark(name));
      }
      var start := marks[name];
      var entry := Entry(start, name, now - start);
      Insert(entry);
      r := Ok(entry);
    }

    /** `getEntries()`. */
    method GetEntries() returns (es: seq<Entry>)
      ensures es == entries
    {
      es := entries;
    }

    /** `clear()`. */
    method Clear()
      modifies this
      ensures marks == map[] && entries == []
      ensures Valid()
    {
      marks := map[];
      entries := [];
    }
  }
}
