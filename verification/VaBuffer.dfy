/** `va`: formatted strings handed out from a circular buffer, and how long one stays intact. */
module VaBuffers {
  import opened CTypes

  const MAX_VA_STRING := 32000

  /** The static buffer and the index of its next free byte. */
  datatype Ring = Ring(bytes: seq<char>, index: int)

  ghost predicate RingOk(r: Ring) {
    |r.bytes| == MAX_VA_STRING && 0 <= r.index <= MAX_VA_STRING
  }

  /** Where a string of `length` characters is put. */
  function Place(index: int, length: int): int {
    if length + index >= MAX_VA_STRING - 1 then 0 else index
  }

  function WriteAt(bytes: seq<char>, start: int, text: string): (r: seq<char>)
    requires 0 <= start && start + |text| <= |bytes|
    ensures |r| == |bytes|
  {
    bytes[..start] + text + bytes[start + |text|..]
  }

  /** One call with an already formatted string. */
  function Step(r: Ring, text: CString): (r': Ring)
    requires RingOk(r) && |text| < MAX_VA_STRING
    ensures RingOk(r')
  {
    var start := Place(r.index, |text|);
    Ring(WriteAt(r.bytes, start, text + ['\0']), start + |text| + 1)
  }

  class VaBuffer {
    const buffer: array<char>
    var index: int

    ghost predicate Valid()
      reads this, buffer
    {
      buffer.Length == MAX_VA_STRING && 0 <= index <= MAX_VA_STRING
    }

    ghost function GetRing(): Ring
      reads this, buffer
    {
      Ring(buffer[..], index)
    }

    constructor ()
      ensures Valid() && index == 0
    {
      buffer := new char[MAX_VA_STRING](_ => '\0');
      index := 0;
    }

    /** `va`, given the formatted string. A string as long as the buffer raises an error instead of
        being handed out; the temporary buffer that it was formatted into, and which is not modelled,
        has been overrun by then. */
    method Va(text: CString) returns (start: Option<nat>)
      requires Valid()
      modifies this`index, buffer
      ensures Valid()
      ensures start.None? <==> |text| >= MAX_VA_STRING
      ensures start.None? ==> GetRing() == old(GetRing())
      ensures start.Some? ==>
                && GetRing() == Step(old(GetRing()), text)
                && start.value == Place(old(index), |text|)
                && start.value + |text| + 1 <= MAX_VA_STRING
                && buffer[start.value..start.value + |text|] == text && buffer[start.value + |text|] == '\0'
    {
      var len := |text|;
      if len >= MAX_VA_STRING {
        return None;
      }
      if len + index >= MAX_VA_STRING - 1 {
        index := 0;
      }
      var buf := index;
      MemCpy(buf, text + ['\0']);
      index := index + (len + 1);
      WrittenAt(old(buffer[..]), buf, text);
      return Some(buf);
    }

    method MemCpy(at: nat, bytes: string)
      requires at + |bytes| <= buffer.Length
      modifies buffer
      ensures buffer[..] == WriteAt(old(buffer[..]), at, bytes)
    {
      forall i | 0 <= i < |bytes| {
        buffer[at + i] := bytes[i];
      }
      IsWriteAt(buffer[..], old(buffer[..]), at, bytes);
    }
  }

  lemma WrittenAt(bytes: seq<char>, start: int, text: string)
    requires 0 <= start && start + |text| + 1 <= |bytes|
    ensures var r := WriteAt(bytes, start, text + ['\0']);
            r[start..start + |text|] == text && r[start + |text|] == '\0'
  {
  }

  lemma {:induction false} IsWriteAt(after: seq<char>, before: seq<char>, start: int, text: string)
    requires 0 <= start && start + |text| <= |before| == |after|
    requires forall i | 0 <= i < |text| :: after[start + i] == text[i]
    requires forall i | 0 <= i < start || start + |text| <= i < |before| :: after[i] == before[i]
    ensures after == WriteAt(before, start, text)
  {
    assert forall i | start <= i < start + |text| :: after[i] == after[start + (i - start)];
  }

  // ----- lifetime ---------------------------------------------------------------------------

  /** The buffer after later calls, oldest first. */
  function After(r: Ring, texts: seq<CString>): (r': Ring)
    requires RingOk(r) && forall t | t in texts :: |t| < MAX_VA_STRING
    ensures RingOk(r')
  {
    if texts == [] then r
    else
      assert texts[|texts| - 1] in texts;
      Step(After(r, texts[..|texts| - 1]), texts[|texts| - 1])
  }

  /** The bytes those calls write, terminators included. */
  function Volume(texts: seq<CString>): nat {
    if texts == [] then 0 else Volume(texts[..|texts| - 1]) + |texts[|texts| - 1]| + 1
  }

  /** While a string at [start, start + n) lives, the writer is either still above it, or has
      wrapped once and is still below it. In the second case it wrapped because the string that
      did not fit was at least as long as the room that was left. */
  ghost predicate Alive(r: Ring, start: int, n: int, volume: int) {
    || (start + n <= r.index && r.index == start + n + volume)
    || (r.index <= start && r.index <= volume && MAX_VA_STRING <= start + n + volume)
  }

  lemma {:induction false} StaysAlive(r: Ring, start: int, n: int, texts: seq<CString>)
    requires RingOk(r) && (forall t | t in texts :: |t| < MAX_VA_STRING)
    requires 0 <= start && n >= 1 && r.index == start + n
    requires n + 2 * Volume(texts) <= MAX_VA_STRING
    ensures var r' := After(r, texts);
            && Alive(r', start, n, Volume(texts))
            && r'.bytes[start..start + n] == r.bytes[start..start + n]
  {
    if texts == [] {
    } else {
      var k := |texts| - 1;
      StaysAlive(r, start, n, texts[..k]);
      assert texts[k] in texts;
      var before := After(r, texts[..k]);
      var at := Place(before.index, |texts[k]|);
      assert at >= start + n || at + |texts[k]| + 1 <= start;
      Untouched(before.bytes, at, texts[k] + ['\0'], start, n);
    }
  }

  lemma Untouched(bytes: seq<char>, at: int, text: string, start: int, n: int)
    requires 0 <= at && at + |text| <= |bytes| && 0 <= start && 0 <= n && start + n <= |bytes|
    requires start + n <= at || at + |text| <= start
    ensures WriteAt(bytes, at, text)[start..start + n] == bytes[start..start + n]
  {
  }

  /** A string of `n` bytes, terminator included, is intact as long as the later calls have
      written `S` bytes with `n + 2 * S <= 32000`. */
  lemma {:induction false} Lifetime(r: Ring, text: CString, texts: seq<CString>)
    requires RingOk(r) && |text| < MAX_VA_STRING && (forall t | t in texts :: |t| < MAX_VA_STRING)
    requires |text| + 1 + 2 * Volume(texts) <= MAX_VA_STRING
    ensures var start := Place(r.index, |text|);
            After(Step(r, text), texts).bytes[start..start + |text| + 1] == text + ['\0']
  {
    var start := Place(r.index, |text|);
    StaysAlive(Step(r, text), start, |text| + 1, texts);
  }

  /** The bound is exact: one byte beyond it, a later string can wrap and end on top of an earlier
      one. */
  lemma {:induction false} LifetimeIsTight(r: Ring, text: CString, later: CString)
    requires RingOk(r) && |text| >= 1 && |later| == r.index
    requires r.index + (|text| + 1) + (|later| + 1) == MAX_VA_STRING
    ensures |text| + 1 + 2 * (|later| + 1) == MAX_VA_STRING + 1
    ensures Place(r.index, |text|) == r.index
    ensures After(Step(r, text), [later]).bytes[r.index] == '\0' != text[0]
  {
    assert [later][..0] == [];
    assert After(Step(r, text), [later]) == Step(Step(r, text), later);
  }
}
