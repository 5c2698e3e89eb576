/** The info-string routines on C buffers, as they walk and edit them, proved against
    `InfoStrings`. */
module InfoBuffers {
  import opened CTypes
  import opened InfoStrings

  // ----- the two comparisons ----------------------------------------------------------------

  /** The first position at which two strings, terminators included, differ but for case. */
  ghost predicate FirstDifference(a: string, b: string, i: nat) {
    && i <= |a| && i <= |b| && Fold(CharAt(a, i)) != Fold(CharAt(b, i))
    && forall k | 0 <= k < i :: Fold(a[k]) == Fold(b[k])
  }

  /** `stricmp`, which upper-cases both strings a byte at a time. Strings that differ are ordered by
      their first different characters, as unsigned bytes. */
  method Stricmp(p1: CString, p2: CString) returns (r: int)
    ensures r == 0 <==> SameKey(p1, p2)
    ensures r != 0 ==> exists i: nat :: FirstDifference(p1, p2, i) && r == Fold(CharAt(p1, i)) - Fold(CharAt(p2, i))
  {
    var i := 0;
    while true
      invariant 0 <= i <= |p1| && i <= |p2|
      invariant forall k | 0 <= k < i :: Fold(p1[k]) == Fold(p2[k])
      decreases |p1| - i
    {
      var c1, c2 := Fold(CharAt(p1, i)), Fold(CharAt(p2, i));
      if c1 == 0 || c1 != c2 {
        assert c1 != c2 ==> FirstDifference(p1, p2, i);
        return c1 - c2;
      }
      i := i + 1;
    }
  }

  function UpperSigned(c: int): int {
    if 97 <= c <= 122 then c - 32 else c
  }

  function SignedOrder(a: char, b: char): int {
    if UpperSigned(SignedChar(a as int)) < UpperSigned(SignedChar(b as int)) then -1 else 1
  }

  /** Below 128 both orders are the same. */
  lemma OrdersAgree(a: char, b: char)
    requires a as int < 128 && b as int < 128 && Fold(a) != Fold(b)
    ensures SignedOrder(a, b) < 0 <==> Fold(a) - Fold(b) < 0
  {
  }

  /** Folding as signed bytes tells the same characters apart as folding as unsigned ones. */
  lemma FoldsAlike(a: char, b: char)
    requires a as int < 256 && b as int < 256
    ensures UpperSigned(SignedChar(a as int)) == UpperSigned(SignedChar(b as int)) <==> Fold(a) == Fold(b)
  {
  }

  /** `Q_stricmpn`, which folds only characters that differ, as signed bytes, and stops after `n`.
      Strings that differ are ordered by their first different characters, as signed bytes. */
  method QStricmpn(s1: CString, s2: CString, n: nat) returns (r: int)
    ensures r == 0 <==> SameKey(s1[..Min(|s1|, n)], s2[..Min(|s2|, n)])
    ensures r != 0 ==>
              exists i: nat :: FirstDifference(s1, s2, i) && i < n && r == SignedOrder(CharAt(s1, i), CharAt(s2, i))
  {
    var i, left := 0, n;
    while true
      invariant 0 <= i <= |s1| && i <= |s2| && i + left == n
      invariant forall k | 0 <= k < i :: Fold(s1[k]) == Fold(s2[k])
      decreases |s1| - i
    {
      var c1, c2 := SignedChar(CharAt(s1, i) as int), SignedChar(CharAt(s2, i) as int);
      if left == 0 {
        return 0;
      }
      left := left - 1;
      FoldsAlike(CharAt(s1, i), CharAt(s2, i));
      if c1 != c2 {
        c1 := UpperSigned(c1);
        c2 := UpperSigned(c2);
        if c1 != c2 {
          assert FirstDifference(s1, s2, i);
          return if c1 < c2 then -1 else 1;
        }
      }
      if c1 == 0 {
        return 0;
      }
      i := i + 1;
    }
  }

  const STRICMP_LIMIT := 99999

  /** `Q_stricmp`. On strings shorter than its limit it agrees with `stricmp`; null equals nothing. */
  method QStricmp(s1: Option<CString>, s2: Option<CString>) returns (r: int)
    ensures s1.None? || s2.None? ==> r == -1
    ensures s1.Some? && s2.Some? && |s1.value| <= STRICMP_LIMIT && |s2.value| <= STRICMP_LIMIT ==>
              (r == 0 <==> SameKey(s1.value, s2.value))
  {
    if s1.None? || s2.None? {
      return -1;
    }
    var a: CString, b: CString := s1.value, s2.value;
    r := QStricmpn(a, b, STRICMP_LIMIT);
    assert a[..|a|] == a && b[..|b|] == b;
  }

  // ----- walking ------------------------------------------------------------------------------

  /** The inner loops of the tokenisers: advance to a separator or to the terminator. */
  method ScanToSeparator(s: CString, i: nat) returns (j: nat)
    requires i <= |s|
    ensures j == Until(s, i)
  {
    j := i;
    while CharAt(s, j) != '\\' && CharAt(s, j) != '\0'
      invariant i <= j <= |s| && Until(s, i) == Until(s, j)
      decreases |s| - j
    {
      j := j + 1;
    }
  }

  /** The same loop over a buffer. */
  method ScanBuffer(buffer: array<char>, ghost s: CString, i: nat) returns (j: nat)
    requires Holds(buffer, s) && i <= |s|
    ensures j == Until(s, i)
  {
    j := i;
    while buffer[j] != '\\' && buffer[j] != '\0'
      invariant i <= j <= |s| && Until(s, i) == Until(s, j)
      decreases |s| - j
    {
      assert buffer[j] == CharAt(s, j);
      j := j + 1;
    }
    assert buffer[j] == CharAt(s, j);
  }

  /** A key and its value, or nothing if the string ends inside the key. */
  method ScanPair(s: CString, i: nat) returns (found: bool, j: nat, e: nat)
    requires i <= |s|
    ensures j == Until(s, i) && (found <==> j < |s|)
    ensures found ==> e == Until(s, j + 1)
  {
    e := 0;
    j := ScanToSeparator(s, i);
    found := CharAt(s, j) != '\0';
    if found {
      e := ScanToSeparator(s, j + 1);
    }
  }

  method ScanBufferPair(buffer: array<char>, ghost s: CString, i: nat) returns (found: bool, j: nat, e: nat)
    requires Holds(buffer, s) && i <= |s|
    ensures j == Until(s, i) && (found <==> j < |s|)
    ensures found ==> e == Until(s, j + 1)
  {
    e := 0;
    j := ScanBuffer(buffer, s, i);
    found := buffer[j] != '\0';
    if found {
      e := ScanBuffer(buffer, s, j + 1);
    }
  }

  lemma {:induction false} LookupMiss(s: string, i: nat, key: string)
    requires i <= |s|
    ensures Until(s, i) == |s| ==> LookupFrom(s, i, key) == ""
  {
  }

  function Sub(s: CString, i: nat, j: nat): CString
    requires i <= j <= |s|
  {
    s[i..j]
  }

  // ----- looking up -------------------------------------------------------------------------

  /** The result of a lookup: the fatal error, the literal empty string, or one of the two
      static buffers. */
  datatype Answer = Fatal | Empty | InBuffer(index: nat)

  class InfoReader {
    var valueindex: nat
    const value: array<string>

    ghost predicate Valid()
      reads this, value
    {
      value.Length == 2 && valueindex < 2
    }

    constructor ()
      ensures Valid() && valueindex == 0
    {
      valueindex := 0;
      value := new string[2](_ => "");
    }

    /** `Info_ValueForKey`. Successive calls alternate between the two buffers, so an answer stays
        intact during the next call. */
    method ValueForKey(info: Option<CString>, name: Option<CString>) returns (r: Answer)
      requires Valid()
      modifies this`valueindex, value
      ensures Valid() && value[old(valueindex)] == old(value[valueindex])
      ensures r.Fatal? <==> info.Some? && name.Some? && |info.value| >= BIG_INFO_STRING
      ensures !r.Fatal? && (info.None? || name.None?) ==> r.Empty? && valueindex == old(valueindex)
      ensures !r.Fatal? && info.Some? && name.Some? ==>
                && valueindex == 1 - old(valueindex)
                && (r.InBuffer? ==> r.index == valueindex)
                && (if r.InBuffer? then value[r.index] else "") == Lookup(info.value, name.value)
    {
      if info.None? || name.None? {
        return Empty;
      }
      var s, key: CString := info.value, name.value;
      if |s| >= BIG_INFO_STRING {
        return Fatal;
      }
      valueindex := 1 - valueindex;
      r := Search(s, key);
    }

    /** The loop of the lookup, which fills the current buffer pair by pair. */
    method Search(s: CString, key: CString) returns (r: Answer)
      requires Valid()
      modifies value
      ensures value[1 - valueindex] == old(value[1 - valueindex])
      ensures r == Empty || r == InBuffer(valueindex)
      ensures (if r.InBuffer? then value[valueindex] else "") == Lookup(s, key)
    {
      var i: nat := 0;
      if CharAt(s, i) == '\\' {
        i := i + 1;
      }
      ghost var target := Lookup(s, key);
      hide LookupFrom, Lookup, SameKey, IsCString;
      var verdict := More(i);
      while verdict.More?
        invariant value[1 - valueindex] == old(value[1 - valueindex])
        invariant match verdict
                  case More(n) => n <= |s| && LookupFrom(s, n, key) == target
                  case Matched => value[valueindex] == target
                  case Ended => target == ""
        decreases if verdict.More? then |s| - verdict.next else -1
      {
        verdict := TryPair(s, verdict.next, key);
      }
      return if verdict.Matched? then InBuffer(valueindex) else Empty;
    }

    /** One turn of that loop. */
    method TryPair(s: CString, i: nat, key: CString) returns (verdict: Verdict)
      requires Valid() && i <= |s|
      modifies value
      ensures value[1 - valueindex] == old(value[1 - valueindex])
      ensures match verdict
              case More(n) => i < n <= |s| && LookupFrom(s, n, key) == LookupFrom(s, i, key)
              case Matched => value[valueindex] == LookupFrom(s, i, key)
              case Ended => LookupFrom(s, i, key) == ""
    {
      hide LookupFrom, SameKey, Until;
      var found, j, e := ScanPair(s, i);
      if !found {
        LookupMiss(s, i, key);
        return Ended;
      }
      LookupAt(s, i, j, e, key);
      var pkey := Sub(s, i, j);
      value[valueindex] := s[j + 1..e];
      var differ := Stricmp(key, pkey);
      if differ == 0 {
        return Matched;
      }
      return if CharAt(s, e) == '\0' then Ended else More(e + 1);
    }
  }

  datatype Verdict = More(next: nat) | Matched | Ended

  // ----- editing in place -------------------------------------------------------------------

  /** The buffer holds the C string `s`. */
  ghost predicate Holds(buffer: array<char>, s: string)
    reads buffer
  {
    && |s| < buffer.Length && buffer[|s|] == '\0'
    && forall k | 0 <= k < |s| :: buffer[k] == s[k]
  }

  method StrLen(buffer: array<char>, ghost s: CString) returns (n: nat)
    requires Holds(buffer, s)
    ensures n == |s|
  {
    n := 0;
    while buffer[n] != '\0'
      invariant n <= |s|
      decreases |s| - n
    {
      n := n + 1;
    }
  }

  /** `Info_RemoveKey`, and with the larger limit `Info_RemoveKey_Big`. */
  method RemoveKey(buffer: array<char>, ghost s: CString, key: CString, limit: nat) returns (oversize: bool)
    requires Holds(buffer, s) && limit <= STRICMP_LIMIT && |key| <= STRICMP_LIMIT
    modifies buffer
    ensures oversize <==> |s| >= limit
    ensures Holds(buffer, if oversize then s else Remove(s, key))
    ensures forall i | |s| < i < buffer.Length :: buffer[i] == old(buffer[i])
  {
    var length := StrLen(buffer, s);
    if length >= limit {
      return true;
    }
    if '\\' in key {
      return false;
    }
    ghost var target := Remove(s, key);
    var verdict := More(0);
    while verdict.More?
      invariant forall i | |s| < i < buffer.Length :: buffer[i] == old(buffer[i])
      invariant if verdict.More?
                then Holds(buffer, s) && verdict.next <= |s| && RemoveFrom(s, verdict.next, key) == target
                else Holds(buffer, target)
      decreases if verdict.More? then |s| - verdict.next else -1
    {
      verdict := TryRemove(buffer, s, verdict.next, key);
    }
    return false;
  }

  /** One turn of that loop, from the pair that starts at `start`. */
  method TryRemove(buffer: array<char>, ghost s: CString, start: nat, key: CString) returns (verdict: Verdict)
    requires Holds(buffer, s) && start <= |s| <= STRICMP_LIMIT && |key| <= STRICMP_LIMIT
    modifies buffer
    ensures forall i | |s| < i < buffer.Length :: buffer[i] == old(buffer[i])
    ensures match verdict
            case More(n) => Holds(buffer, s) && start < n <= |s| && RemoveFrom(s, n, key) == RemoveFrom(s, start, key)
            case _ => Holds(buffer, RemoveFrom(s, start, key))
  {
    hide RemoveFrom, SameKey, Until;
    var i := start;
    if buffer[i] == '\\' {
      i := i + 1;
    }
    assert i == SkipSeparator(s, start);
    var found, j, e := ScanBufferPair(buffer, s, i);
    if !found {
      RemoveMiss(s, start, key);
      return Ended;
    }
    RemoveAt(s, start, j, e, key);
    assert buffer[i..j] == Sub(s, i, j);
    var pkey: CString := buffer[i..j];
    var differ := QStricmp(Some(key), Some(pkey));
    if differ == 0 {
      MoveTail(buffer, s, start, e);
      return Matched;
    }
    return if buffer[e] == '\0' then Ended else More(e);
  }

  /** The `memmove` of everything from `e` on, terminator included, down to `start`. */
  method MoveTail(buffer: array<char>, ghost s: CString, start: nat, e: nat)
    requires Holds(buffer, s) && start <= e <= |s|
    modifies buffer
    ensures Holds(buffer, s[..start] + s[e..])
    ensures forall i | |s| < i < buffer.Length :: buffer[i] == old(buffer[i])
  {
    var length := StrLen(buffer, s);
    forall i | 0 <= i <= length - e {
      buffer[start + i] := buffer[e + i];
    }
    forall k | 0 <= k < start + (|s| - e)
      ensures buffer[k] == (s[..start] + s[e..])[k]
    {
      SplicedAt(s, start, e, k);
      if k >= start {
        assert buffer[start + (k - start)] == s[e + (k - start)];
      }
    }
  }

  lemma SplicedAt(s: string, start: nat, e: nat, k: nat)
    requires start <= e <= |s| && k < start + (|s| - e)
    ensures (s[..start] + s[e..])[k] == if k < start then s[k] else s[k - start + e]
  {
  }

  /** `Info_SetValueForKey`, and with the larger limit `Info_SetValueForKey_Big`. `overrun` says that
      the terminator of the result would go past the end of the buffer; `ReachesLimitIff` says when
      that happens to a buffer of `limit` bytes. */
  method SetValueForKey(buffer: array<char>, ghost s: CString, key: CString, value: CString, limit: nat)
      returns (outcome: Outcome, overrun: bool)
    requires Holds(buffer, s) && 0 < limit <= buffer.Length && limit <= STRICMP_LIMIT && |key| <= STRICMP_LIMIT
    modifies buffer
    ensures outcome == SetOutcome(s, key, value, limit)
    ensures overrun <==> |SetValue(s, key, value, limit)| >= buffer.Length
    ensures if overrun then buffer[..] == SetValue(s, key, value, limit)
               else Holds(buffer, SetValue(s, key, value, limit))
  {
    overrun := false;
    var length := StrLen(buffer, s);
    if length >= limit {
      return Oversize, false;
    }
    if '\\' in key || '\\' in value {
      return Rejected, false;
    }
    if ';' in key || ';' in value {
      return Rejected, false;
    }
    if '\"' in key || '\"' in value {
      return Rejected, false;
    }
    var oversize := RemoveKey(buffer, s, key, limit);
    if |value| == 0 {
      return Deleted, false;
    }
    RemoveIsCString(s, 0, key);
    var stored;
    stored, overrun := AppendPair(buffer, Remove(s, key), key, value, limit);
    return if stored then Stored else TooLong, overrun;
  }

  /** The end of the setter: format the pair, and `strcat` it if it fits. */
  method AppendPair(buffer: array<char>, ghost r: CString, key: CString, value: CString, limit: nat)
      returns (stored: bool, overrun: bool)
    requires Holds(buffer, r) && 0 < limit <= buffer.Length
    modifies buffer
    ensures stored <==> |PairText(key, value, limit)| + |r| <= limit
    ensures overrun <==> stored && |r + PairText(key, value, limit)| == buffer.Length
    ensures if overrun then buffer[..] == r + PairText(key, value, limit)
            else Holds(buffer, if stored then r + PairText(key, value, limit) else r)
  {
    var newi := PairText(key, value, limit);
    var length := StrLen(buffer, r);
    if |newi| + length > limit {
      return false, false;
    }
    forall i | 0 <= i < |newi| {
      buffer[length + i] := newi[i];
    }
    if length + |newi| == buffer.Length {
      return true, true;
    }
    buffer[length + |newi|] := '\0';
    return true, false;
  }

  lemma {:induction false} RemoveIsCString(s: string, start: nat, key: string)
    requires start <= |s| && IsCString(s)
    ensures IsCString(RemoveFrom(s, start, key))
    decreases |s| - start
  {
    hide RemoveFrom, SameKey, Until;
    var i := SkipSeparator(s, start);
    var j := Until(s, i);
    if j == |s| {
      RemoveMiss(s, start, key);
    } else {
      var e := Until(s, j + 1);
      RemoveAt(s, start, j, e, key);
      if SameKey(key, s[i..j]) {
        JoinIsCString(s[..start], s[e..]);
      } else if e < |s| {
        RemoveIsCString(s, e, key);
      }
    }
  }

  lemma JoinIsCString(a: CString, b: CString)
    ensures IsCString(a + b)
  {
  }
}
