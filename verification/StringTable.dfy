/** The localized-string table of `X_LocalizedStringIndex`: 255 configstring slots, the upper half
    of which doubles as an eviction ring once all are taken. */
module StringTables {
  import opened CTypes

  const SLOTS := 256
  const FIRST_EVICTABLE := 128
  const MAX_STRING_CHARS := 1024

  /** The configstrings from 1244 on, and the static counter. Slot 0 is never used. */
  datatype Table = Table(strings: seq<string>, counter: int)

  /** What the scan sees of a configstring: the copy that fits its local buffer. */
  function Copied(s: string): string {
    s[..Min(|s|, MAX_STRING_CHARS - 1)]
  }

  lemma {:induction false} CopiedMeaning(s: string, str: string)
    ensures Copied(s) == "" <==> s == ""
    ensures |Copied(s)| < MAX_STRING_CHARS
    ensures |s| < MAX_STRING_CHARS ==> Copied(s) == s
  {
  }

  /** The slot `str` is found in or would be written to: the first from `i` on that is empty or
      seems to hold it, or the end of the table. */
  function Scan(strings: seq<string>, str: string, i: nat): (k: nat)
    requires |strings| == SLOTS && i <= SLOTS
    ensures i <= k <= SLOTS
    decreases SLOTS - i
  {
    if i == SLOTS || Copied(strings[i]) == "" || Copied(strings[i]) == str then i else Scan(strings, str, i + 1)
  }

  function Wrapped(counter: int): int {
    if counter >= SLOTS then FIRST_EVICTABLE else counter
  }

  datatype Interned = Interned(table: Table, index: int)

  function Intern(t: Table, str: string): Interned
    requires |t.strings| == SLOTS && FIRST_EVICTABLE <= t.counter <= SLOTS
  {
    var counter := Wrapped(t.counter);
    if str == "" then Interned(Table(t.strings, counter), 0)
    else
      var k := Scan(t.strings, str, 1);
      if k < SLOTS && Copied(t.strings[k]) == str then Interned(Table(t.strings, counter), k)
      else
        var i := if k == SLOTS then counter else k;
        Interned(Table(t.strings[i := str], counter + 1), i)
  }

  class StringTable {
    const configstrings: array<string>
    var index: int

    ghost predicate Valid()
      reads this, configstrings
    {
      configstrings.Length == SLOTS && FIRST_EVICTABLE <= index <= SLOTS
    }

    ghost function GetTable(): Table
      reads this, configstrings
    {
      Table(configstrings[..], index)
    }

    constructor ()
      ensures Valid() && GetTable() == EmptyTable()
    {
      configstrings := new string[SLOTS](_ => "");
      index := FIRST_EVICTABLE;
    }

    /** `X_LocalizedStringIndex`. */
    method LocalizedStringIndex(str: Option<string>) returns (i: int)
      requires Valid()
      modifies this, configstrings
      ensures Valid()
      ensures Interned(GetTable(), i) == Intern(old(GetTable()), if str.Some? then str.value else "")
      ensures str.None? || str.value == "" ==> i == 0 && configstrings[..] == old(configstrings[..])
    {
      hide Scan, Copied;
      if index >= SLOTS {
        index := FIRST_EVICTABLE;
      }
      if str.None? || str.value == "" {
        return 0;
      }
      var found;
      i, found := FindSlot(str.value);
      if found {
        return i;
      }
      if i == SLOTS {
        i := index;
      }
      configstrings[i] := str.value;
      index := index + 1;
    }

    /** The scan: up to an empty slot, or to the one that holds the string. */
    method FindSlot(str: string) returns (i: nat, found: bool)
      requires Valid() && str != ""
      ensures i == Scan(configstrings[..], str, 1)
      ensures found <==> i < SLOTS && Copied(configstrings[i]) == str
    {
      i := 1;
      while i < SLOTS
        invariant 1 <= i <= SLOTS
        invariant Scan(configstrings[..], str, 1) == Scan(configstrings[..], str, i)
      {
        var s := Copied(configstrings[i]);
        if s == "" {
          break;
        }
        if s == str {
          return i, true;
        }
        i := i + 1;
      }
      return i, false;
    }
  }

  /** The table at program start. */
  function EmptyTable(): (t: Table)
    ensures |t.strings| == SLOTS && FIRST_EVICTABLE <= t.counter <= SLOTS
  {
    Table(seq(SLOTS, _ => ""), FIRST_EVICTABLE)
  }

  // ----- the invariant ----------------------------------------------------------------------

  /** A string that survives the copy the scan makes. */
  predicate Short(s: string) {
    |s| < MAX_STRING_CHARS
  }

  /** The strings in use form a prefix of slots 1..255, only strings too long for the copy occur
      twice, and the counter stays in the upper half. */
  ghost predicate TableOk(t: Table) {
    && |t.strings| == SLOTS && FIRST_EVICTABLE <= t.counter <= SLOTS
    && (forall i, j | 1 <= i < j < SLOTS && t.strings[j] != "" ::
          t.strings[i] != "" && (t.strings[i] == t.strings[j] ==> !Short(t.strings[i])))
  }

  lemma {:induction false} ScanMeaning(strings: seq<string>, str: string, i: nat)
    requires |strings| == SLOTS && i <= SLOTS
    ensures var k := Scan(strings, str, i);
            && (forall j | i <= j < k :: Copied(strings[j]) != "" && Copied(strings[j]) != str)
            && (k < SLOTS ==> Copied(strings[k]) == "" || Copied(strings[k]) == str)
    decreases SLOTS - i
  {
    if i == SLOTS || Copied(strings[i]) == "" || Copied(strings[i]) == str {
    } else {
      ScanMeaning(strings, str, i + 1);
    }
  }

  /** The scan takes slot `j` for the string. */
  ghost predicate SeenAt(strings: seq<string>, str: string, j: int) {
    1 <= j < |strings| && Copied(strings[j]) == str
  }

  ghost predicate Seen(strings: seq<string>, str: string) {
    exists j :: SeenAt(strings, str, j)
  }

  /** The first slot that the scan takes for the string holds a longer one. */
  ghost predicate Shadowed(strings: seq<string>, str: string) {
    exists j :: SeenAt(strings, str, j) && strings[j] != str && forall i | 1 <= i < j :: !SeenAt(strings, str, i)
  }

  /** On a well-formed table the scan stops at the first slot it takes for the string, and otherwise
      at the first empty one. */
  lemma {:induction false} ScanFinds(t: Table, str: string)
    requires TableOk(t) && str != ""
    ensures var k := Scan(t.strings, str, 1);
            && 1 <= k && (forall j | 1 <= j < k :: t.strings[j] != "" && !SeenAt(t.strings, str, j))
            && (SeenAt(t.strings, str, k) <==> Seen(t.strings, str))
            && (k < SLOTS && !Seen(t.strings, str) ==> t.strings[k] == "")
  {
    hide Scan, Copied;
    ScanMeaning(t.strings, str, 1);
    forall j | 1 <= j < SLOTS
      ensures Copied(t.strings[j]) == "" <==> t.strings[j] == ""
    {
      CopiedMeaning(t.strings[j], str);
    }
    var k := Scan(t.strings, str, 1);
    forall j | k < j < SLOTS && t.strings[k] == ""
      ensures t.strings[j] == ""
    {
    }
  }

  /** Slot 0 is the answer to the empty string, and to nothing else. */
  lemma {:induction false} ZeroIffEmpty(t: Table, str: string)
    requires TableOk(t)
    ensures Intern(t, str).index == 0 <==> str == ""
    ensures str == "" ==> Intern(t, str).table.strings == t.strings
    ensures Intern(t, str).table.strings[0] == t.strings[0]
  {
    hide Scan, Copied;
    if str != "" {
      InternMeaning(t, str);
    }
  }

  ghost predicate Full(strings: seq<string>)
    requires |strings| == SLOTS
  {
    forall i | 1 <= i < SLOTS :: strings[i] != ""
  }

  /** Interning any string: it is taken to be present exactly if some copy equals it, and then
      nothing is written; otherwise it goes to the first empty slot or, when there is none, to the
      one in the upper half that the counter points to. */
  lemma {:induction false} InternMeaning(t: Table, str: string)
    requires TableOk(t) && str != ""
    ensures var r := Intern(t, str);
            && TableOk(r.table) && 1 <= r.index < SLOTS
            && r.table.strings == (if Seen(t.strings, str) then t.strings else t.strings[r.index := str])
            && (!Seen(t.strings, str) ==>
                  if Full(t.strings) then r.index == Wrapped(t.counter) >= FIRST_EVICTABLE
                  else t.strings[r.index] == "" && forall i | 1 <= i < r.index :: t.strings[i] != "")
  {
    hide Scan, Copied;
    ScanFinds(t, str);
    forall i | 1 <= i < SLOTS && Short(t.strings[i]) && t.strings[i] == str
      ensures Seen(t.strings, str)
    {
      CopiedMeaning(t.strings[i], str);
      assert SeenAt(t.strings, str, i);
    }
  }

  /** The returned slot holds the requested string, exactly if no longer one hides it: a copy cut to
      1023 characters that equals the request, in front of all others that do. */
  lemma {:induction false} InternHolds(t: Table, str: string)
    requires TableOk(t) && str != ""
    ensures var r := Intern(t, str);
            r.table.strings[r.index] == str <==> !Shadowed(t.strings, str)
  {
    hide Scan, Copied;
    ScanFinds(t, str);
    var k := Scan(t.strings, str, 1);
    if Seen(t.strings, str) && t.strings[k] != str {
      assert SeenAt(t.strings, str, k);
    }
  }

  /** So every request is met whose length is not exactly 1023. */
  lemma {:induction false} OnlyOneLengthIsHidden(t: Table, str: string)
    requires TableOk(t) && str != "" && |str| != MAX_STRING_CHARS - 1
    ensures var r := Intern(t, str); r.table.strings[r.index] == str
  {
    InternHolds(t, str);
  }

  /** Such a case: a string of 1024 characters, then its first 1023. */
  lemma {:induction false} LongHidesShort(long: string)
    requires |long| == MAX_STRING_CHARS
    ensures var str := long[..MAX_STRING_CHARS - 1];
            var t := TableAfter([long]);
            var r := Intern(t, str);
            Shadowed(t.strings, str) && r.table.strings == t.strings && r.table.strings[r.index] == long != str
  {
    var str := long[..MAX_STRING_CHARS - 1];
    assert [long][..0] == [];
    assert TableAfter([long]) == Intern(EmptyTable(), long).table;
    var t := TableAfter([long]);
    assert t.strings == EmptyTable().strings[1 := long];
    assert SeenAt(t.strings, str, 1);
  }

  /** The last slot is the only empty one: the next write goes there, and so does the one after. */
  ghost predicate LastSlotTwice(t: Table)
    requires |t.strings| == SLOTS
  {
    t.strings[SLOTS - 2] != "" && t.strings[SLOTS - 1] == "" && Wrapped(t.counter) == SLOTS - 2
  }

  /** Interning again returns the same slot and changes no string, exactly if the string survives
      the copy the scan makes, or both calls write the last slot. It leaves the counter alone
      exactly if the string survives. */
  lemma {:induction false} InternAgain(t: Table, str: string)
    requires TableOk(t) && str != ""
    ensures var r := Intern(t, str);
            var again := Intern(r.table, str);
            && (again.index == r.index && again.table.strings == r.table.strings <==> Short(str) || LastSlotTwice(t))
            && (again == Interned(Table(r.table.strings, Wrapped(r.table.counter)), r.index) <==> Short(str))
  {
    hide Scan, Copied;
    var r := Intern(t, str);
    if Short(str) {
      CopiedMeaning(str, str);
      InternMeaning(t, str);
      ScanFinds(t, str);
      ScanFinds(r.table, str);
      assert SeenAt(r.table.strings, str, r.index);
    } else {
      LongIsWritten(t, str);
      LongIsWritten(r.table, str);
      LongAgain(t, str);
    }
  }

  /** A string that does not survive the copy is never found, and always written. */
  lemma {:induction false} LongIsWritten(t: Table, str: string)
    requires TableOk(t) && !Short(str)
    ensures var r := Intern(t, str);
            && TableOk(r.table) && r.table == Table(t.strings[r.index := str], Wrapped(t.counter) + 1)
            && 1 <= r.index < SLOTS
            && if Full(t.strings) then r.index == Wrapped(t.counter)
               else t.strings[r.index] == "" && forall i | 1 <= i < r.index :: t.strings[i] != ""
  {
    hide Scan, Copied;
    InternMeaning(t, str);
    ScanFinds(t, str);
    forall j | 1 <= j < SLOTS
      ensures !SeenAt(t.strings, str, j)
    {
      CopiedMeaning(t.strings[j], str);
    }
  }

  lemma {:induction false} LongAgain(t: Table, str: string)
    requires TableOk(t) && !Short(str)
    ensures var r := Intern(t, str); Intern(r.table, str).index == r.index <==> LastSlotTwice(t)
  {
    hide Intern, Scan, Copied;
    LongIsWritten(t, str);
    var r := Intern(t, str);
    LongIsWritten(r.table, str);
    if !Full(t.strings) && r.index < SLOTS - 1 {
      assert r.table.strings[r.index + 1] == "";
    } else if !Full(t.strings) {
      assert Full(r.table.strings);
    }
  }

  // ----- distinctness -------------------------------------------------------------------------

  ghost predicate NoRepeats(strings: seq<string>) {
    forall i, j | 1 <= i < j < |strings| && strings[j] != "" :: strings[i] != strings[j]
  }

  /** Interning keeps the strings distinct, exactly if the string survives the copy, or is absent,
      or is about to be evicted by itself. */
  lemma {:induction false} StaysDistinctIff(t: Table, str: string)
    requires TableOk(t) && NoRepeats(t.strings) && str != ""
    ensures NoRepeats(Intern(t, str).table.strings)
            <==> Short(str)
                 || forall i | 1 <= i < SLOTS && t.strings[i] == str :: Full(t.strings) && i == Wrapped(t.counter)
  {
    hide Intern, Scan, Copied;
    InternMeaning(t, str);
    var r := Intern(t, str);
    if Short(str) {
      assert NoRepeats(r.table.strings);
    } else {
      LongIsWritten(t, str);
      forall i | 1 <= i < SLOTS && t.strings[i] == str && i != r.index
        ensures !NoRepeats(r.table.strings)
      {
        assert r.table.strings[i] == r.table.strings[r.index];
        assert i < r.index || r.index < i;
      }
    }
  }

  /** Interning any string at all leaves the filled slots of the lower half alone. */
  lemma {:induction false} InternKeepsLowerHalf(t: Table, str: string, i: int)
    requires |t.strings| == SLOTS && FIRST_EVICTABLE <= t.counter <= SLOTS
    requires 1 <= i < FIRST_EVICTABLE && t.strings[i] != ""
    ensures Intern(t, str).table.strings[i] == t.strings[i]
  {
    hide Scan, Copied;
    ScanMeaning(t.strings, str, 1);
    CopiedMeaning(t.strings[i], str);
  }

  // ----- runs -------------------------------------------------------------------------------

  function TableAfter(requests: seq<string>): (t: Table)
    ensures |t.strings| == SLOTS && FIRST_EVICTABLE <= t.counter <= SLOTS
  {
    if requests == [] then EmptyTable()
    else
      var n := |requests| - 1;
      Intern(TableAfter(requests[..n]), requests[n]).table
  }

  /** In every run the table stays well-formed. */
  lemma {:induction false} RunIsOk(requests: seq<string>)
    ensures TableOk(TableAfter(requests))
  {
    if requests == [] {
    } else {
      var n := |requests| - 1;
      RunIsOk(requests[..n]);
      if requests[n] != "" {
        InternMeaning(TableAfter(requests[..n]), requests[n]);
      }
    }
  }

  /** The table holds nothing but what was asked for. */
  lemma {:induction false} EntriesWereRequested(requests: seq<string>, i: int)
    requires 1 <= i < SLOTS && TableAfter(requests).strings[i] != ""
    ensures TableAfter(requests).strings[i] in requests
  {
    hide Intern;
    if requests == [] {
    } else {
      var n := |requests| - 1;
      var t := TableAfter(requests[..n]);
      RunIsOk(requests[..n]);
      if requests[n] == "" {
        InternNothing(t);
        EntriesWereRequested(requests[..n], i);
      } else {
        InternMeaning(t, requests[n]);
        if TableAfter(requests).strings[i] == t.strings[i] {
          EntriesWereRequested(requests[..n], i);
        }
      }
    }
  }

  lemma InternNothing(t: Table)
    requires |t.strings| == SLOTS && FIRST_EVICTABLE <= t.counter <= SLOTS
    ensures Intern(t, "").table.strings == t.strings
  {
  }

  ghost predicate AllShort(requests: seq<string>) {
    forall r | r in requests :: Short(r)
  }

  /** In every run of strings that survive the copy the entries are pairwise distinct, and every
      further such request is met. */
  lemma {:induction false} ShortRun(requests: seq<string>, str: string)
    requires AllShort(requests) && Short(str) && str != ""
    ensures var t := TableAfter(requests);
            var r := Intern(t, str);
            NoRepeats(t.strings) && r.table.strings[r.index] == str
  {
    hide Intern, Scan, Copied;
    var t := TableAfter(requests);
    RunIsOk(requests);
    forall i | 1 <= i < SLOTS && t.strings[i] != ""
      ensures Short(t.strings[i])
    {
      EntriesWereRequested(requests, i);
    }
    InternHolds(t, str);
    forall j | SeenAt(t.strings, str, j)
      ensures t.strings[j] == str
    {
      CopiedMeaning(t.strings[j], str);
    }
  }

  /** A string that does not survive it is entered twice by asking twice. */
  lemma {:induction false} LongRepeats(str: string)
    requires !Short(str)
    ensures var t := TableAfter([str, str]);
            t.strings[1] == t.strings[2] == str && !NoRepeats(t.strings)
  {
    hide Intern, Scan, Copied;
    assert [str, str][..1] == [str] && [str][..0] == [];
    RunIsOk([]);
    LongIsWritten(EmptyTable(), str);
    LongIsWritten(TableAfter([str]), str);
  }

  // ----- the counter of a run -------------------------------------------------------------------

  /** Slots 1..w are in use and no others. */
  ghost predicate FilledTo(strings: seq<string>, w: int)
    requires |strings| == SLOTS
  {
    && 0 <= w < SLOTS && (forall i | 1 <= i <= w :: strings[i] != "")
    && (forall i | w < i < SLOTS :: strings[i] == "")
  }

  lemma {:induction false} HasLevel(t: Table, i: int) returns (w: int)
    requires TableOk(t) && 0 <= i < SLOTS && forall j | i < j < SLOTS :: t.strings[j] == ""
    ensures FilledTo(t.strings, w)
  {
    if i == 0 || t.strings[i] != "" {
      w := i;
    } else {
      w := HasLevel(t, i - 1);
    }
  }

  lemma LevelIsUnique(strings: seq<string>, v: int, w: int)
    requires |strings| == SLOTS && FilledTo(strings, v) && FilledTo(strings, w)
    ensures v == w
  {
    var m := Max(v, w);
    assert m == 0 || strings[m] != "";
  }

  /** Writing to a table that is not full fills the next slot. */
  lemma {:induction false} WriteFills(t: Table, str: string, w: int)
    requires TableOk(t) && str != "" && !Seen(t.strings, str) && FilledTo(t.strings, w) && w < SLOTS - 1
    ensures var r := Intern(t, str);
            && r.index == w + 1 && r.table == Table(t.strings[w + 1 := str], Wrapped(t.counter) + 1)
            && FilledTo(r.table.strings, w + 1)
  {
    hide Scan, Copied;
    ScanFinds(t, str);
    var k := Scan(t.strings, str, 1);
    assert t.strings[w + 1] == "";
  }

  lemma {:induction false} WriteKeepsFull(t: Table, str: string, w: int)
    requires TableOk(t) && str != "" && FilledTo(t.strings, SLOTS - 1) && FilledTo(Intern(t, str).table.strings, w)
    ensures w == SLOTS - 1
  {
    hide Intern, Scan, Copied;
    InternMeaning(t, str);
    LevelIsUnique(Intern(t, str).table.strings, w, SLOTS - 1);
  }

  lemma EmptyLevel(w: int)
    requires FilledTo(EmptyTable().strings, w)
    ensures w == 0
  {
    assert EmptyTable().strings[1] == "";
  }

  /** Until the table is full, the counter follows the number of slots in use. */
  lemma {:induction false} CounterFollows(requests: seq<string>, w: int)
    requires FilledTo(TableAfter(requests).strings, w) && w < SLOTS - 1
    ensures Wrapped(TableAfter(requests).counter) == FIRST_EVICTABLE + w % FIRST_EVICTABLE
  {
    hide Intern, Scan, Copied, FilledTo, TableOk, Seen;
    if requests == [] {
      EmptyLevel(w);
    } else {
      var n := |requests| - 1;
      var t := TableAfter(requests[..n]);
      RunIsOk(requests[..n]);
      if requests[n] == "" || Seen(t.strings, requests[n]) {
        SeenMeansFound(t, requests[n]);
        CounterFollows(requests[..n], w);
      } else {
        var v := HasLevel(t, SLOTS - 1);
        if v == SLOTS - 1 {
          WriteKeepsFull(t, requests[n], w);
        } else {
          LevelInRange(t.strings, v);
          WriteFills(t, requests[n], v);
          LevelIsUnique(TableAfter(requests).strings, v + 1, w);
          CounterFollows(requests[..n], v);
        }
      }
    }
  }

  lemma LevelInRange(strings: seq<string>, w: int)
    requires |strings| == SLOTS && FilledTo(strings, w)
    ensures 0 <= w < SLOTS
  {
  }

  lemma {:induction false} SeenMeansFound(t: Table, str: string)
    requires TableOk(t) && (str != "" ==> Seen(t.strings, str))
    ensures Intern(t, str).table == Table(t.strings, Wrapped(t.counter))
  {
    hide Scan, Copied;
    if str != "" {
      ScanFinds(t, str);
    }
  }

  /** Over runs, then, asking twice in a row gives the same slot and the same strings exactly if the
      string survives the copy or the last slot is the only empty one. */
  lemma {:induction false} AskTwice(requests: seq<string>, str: string)
    requires str != ""
    ensures var t := TableAfter(requests);
            var r := Intern(t, str);
            var again := Intern(r.table, str);
            again.index == r.index && again.table.strings == r.table.strings
            <==> Short(str) || (t.strings[SLOTS - 2] != "" && t.strings[SLOTS - 1] == "")
  {
    hide Intern;
    var t := TableAfter(requests);
    RunIsOk(requests);
    InternAgain(t, str);
    if t.strings[SLOTS - 2] != "" && t.strings[SLOTS - 1] == "" {
      assert FilledTo(t.strings, SLOTS - 2);
      CounterFollows(requests, SLOTS - 2);
    }
  }

  /** Distinct one-character requests. */
  function Labels(n: nat): (requests: seq<string>)
    requires n < SLOTS
    ensures |requests| == n && forall i | 0 <= i < n :: requests[i] == [(i + 1) as char]
  {
    seq(n, i requires 0 <= i < n => [(i + 1) as char])
  }

  lemma {:induction false} LabelsFill(n: nat)
    requires n < SLOTS
    ensures var t := TableAfter(Labels(n));
            FilledTo(t.strings, n) && forall i | 1 <= i <= n :: t.strings[i] == [i as char]
  {
    hide Intern, Scan, Copied;
    if n == 0 {
    } else {
      LabelsFill(n - 1);
      assert Labels(n)[..n - 1] == Labels(n - 1);
      var t, str := TableAfter(Labels(n - 1)), [n as char];
      RunIsOk(Labels(n - 1));
      forall j | 1 <= j < SLOTS
        ensures !SeenAt(t.strings, str, j)
      {
        CopiedMeaning(t.strings[j], str);
      }
      WriteFills(t, str, n - 1);
      hide TableOk, FilledTo, Seen, SeenAt;
    }
  }

  /** Such a run: 254 short strings, and then a long one gets slot 255 twice. */
  lemma {:induction false} LongAskedTwice(long: string)
    requires !Short(long)
    ensures var t := TableAfter(Labels(SLOTS - 2));
            var r := Intern(t, long);
            var again := Intern(r.table, long);
            again.index == r.index == SLOTS - 1 && again.table.strings == r.table.strings
  {
    hide Intern;
    var t := TableAfter(Labels(SLOTS - 2));
    LabelsFill(SLOTS - 2);
    AskTwice(Labels(SLOTS - 2), long);
    RunIsOk(Labels(SLOTS - 2));
    LongIsWritten(t, long);
  }

  /** A slot of the lower half keeps its string for good: in every continuation of every run. */
  lemma {:induction false} LowerHalfIsPermanent(requests: seq<string>, k: nat, i: int)
    requires k <= |requests| && 1 <= i < FIRST_EVICTABLE
    requires TableAfter(requests[..k]).strings[i] != ""
    ensures TableAfter(requests).strings[i] == TableAfter(requests[..k]).strings[i]
  {
    hide Intern;
    if k < |requests| {
      var n := |requests| - 1;
      assert requests[..n][..k] == requests[..k];
      LowerHalfIsPermanent(requests[..n], k, i);
      InternKeepsLowerHalf(TableAfter(requests[..n]), requests[n], i);
    } else {
      assert requests[..k] == requests;
    }
  }
}
