/** Info strings: the `\key\value` text that carries user and server settings. This module says
    what looking up, removing and setting a key compute, and relates them to a dictionary. */
module InfoStrings {
  import opened CTypes

  const BIG_INFO_STRING := 8192

  // ----- comparing keys ---------------------------------------------------------------------

  function Fold(c: char): int {
    if 'a' <= c <= 'z' then c as int - 32 else c as int
  }

  /** Equality of keys: without regard to case. */
  predicate SameKey(a: string, b: string) {
    |a| == |b| && forall i | 0 <= i < |a| :: Fold(a[i]) == Fold(b[i])
  }

  // ----- the two tokenisers -----------------------------------------------------------------

  /** The next separator at or after `i`, or the end of the string. */
  function Until(s: string, i: nat): (j: nat)
    requires i <= |s|
    ensures i <= j <= |s| && (j < |s| ==> s[j] == '\\')
    decreases |s| - i
  {
    if i == |s| || s[i] == '\\' then i else Until(s, i + 1)
  }

  function SkipSeparator(s: string, i: nat): (j: nat)
    requires i <= |s|
    ensures i <= j <= |s|
  {
    if i < |s| && s[i] == '\\' then i + 1 else i
  }

  /** What `Info_ValueForKey` finds from a key that starts at `i`. */
  function LookupFrom(s: string, i: nat, key: string): string
    requires i <= |s|
    decreases |s| - i
  {
    var j := Until(s, i);
    if j == |s| then ""
    else
      var e := Until(s, j + 1);
      if SameKey(key, s[i..j]) then s[j + 1..e]
      else if e == |s| then ""
      else LookupFrom(s, e + 1, key)
  }

  function Lookup(s: string, key: string): string {
    LookupFrom(s, SkipSeparator(s, 0), key)
  }

  /** What `Info_RemoveKey` leaves, given that the pairs before `start` do not match. */
  function RemoveFrom(s: string, start: nat, key: string): string
    requires start <= |s|
    decreases |s| - start
  {
    var i := SkipSeparator(s, start);
    var j := Until(s, i);
    if j == |s| then s
    else
      var e := Until(s, j + 1);
      if SameKey(key, s[i..j]) then s[..start] + s[e..]
      else if e == |s| then s
      else RemoveFrom(s, e, key)
  }

  function Remove(s: string, key: string): string {
    if '\\' in key then s else RemoveFrom(s, 0, key)
  }

  // ----- setting a key ----------------------------------------------------------------------

  datatype Outcome = Oversize | Rejected | Deleted | TooLong | Stored

  predicate HasForbidden(s: string) {
    '\\' in s || ';' in s || '\"' in s
  }

  /** The text appended for a pair; the buffer it is formatted into cuts it short. */
  function PairText(key: string, value: string, limit: nat): string
    requires limit > 0
  {
    var text := "\\" + key + "\\" + value;
    text[..Min(|text|, limit - 1)]
  }

  function SetOutcome(s: string, key: string, value: string, limit: nat): Outcome
    requires limit > 0
  {
    if |s| >= limit then Oversize
    else if HasForbidden(key) || HasForbidden(value) then Rejected
    else if value == "" then Deleted
    else if |PairText(key, value, limit)| + |Remove(s, key)| > limit then TooLong
    else Stored
  }

  /** The string after `Info_SetValueForKey`. */
  function SetValue(s: string, key: string, value: string, limit: nat): string
    requires limit > 0
  {
    match SetOutcome(s, key, value, limit)
    case Oversize => s
    case Rejected => s
    case Deleted => Remove(s, key)
    case TooLong => Remove(s, key)
    case Stored => Remove(s, key) + PairText(key, value, limit)
  }

  // ----- info strings as lists of pairs -----------------------------------------------------

  datatype Pair = Pair(key: string, value: string)

  function Encode(pairs: seq<Pair>): string {
    if pairs == [] then "" else "\\" + pairs[0].key + "\\" + pairs[0].value + Encode(pairs[1..])
  }

  predicate Plain(p: Pair) {
    '\\' !in p.key && '\\' !in p.value
  }

  /** Keys are distinct without regard to case, and no part contains the separator. */
  ghost predicate Proper(pairs: seq<Pair>) {
    && (forall i | 0 <= i < |pairs| :: Plain(pairs[i]))
    && (forall i, j | 0 <= i < j < |pairs| :: !SameKey(pairs[i].key, pairs[j].key))
  }

  function Assoc(pairs: seq<Pair>, key: string): string {
    if pairs == [] then "" else if SameKey(key, pairs[0].key) then pairs[0].value else Assoc(pairs[1..], key)
  }

  function Drop(pairs: seq<Pair>, key: string): seq<Pair> {
    if pairs == [] then [] else if SameKey(key, pairs[0].key) then pairs[1..] else [pairs[0]] + Drop(pairs[1..], key)
  }

  lemma {:induction false} UntilIs(s: string, i: nat, j: nat)
    requires i <= j <= |s| && (j < |s| ==> s[j] == '\\')
    requires forall k | i <= k < j :: s[k] != '\\'
    ensures Until(s, i) == j
    decreases j - i
  {
    if i == j {
    } else {
      UntilIs(s, i + 1, j);
    }
  }

  lemma EncodeShape(pairs: seq<Pair>)
    ensures Encode(pairs) == "" <==> pairs == []
    ensures pairs != [] ==> Encode(pairs)[0] == '\\'
  {
  }

  /** The pair `p` starts at position `i` of `s` and runs up to the next pair or the end. */
  ghost predicate PairAt(s: string, i: nat, p: Pair) {
    var j := i + 1 + |p.key|;
    var e := i + PairLength(p);
    && i < j < e <= |s| && s[i] == '\\' && s[i + 1..j] == p.key
    && s[j] == '\\' && s[j + 1..e] == p.value && (e < |s| ==> s[e] == '\\')
  }

  function PairLength(p: Pair): nat {
    |p.key| + |p.value| + 2
  }

  lemma {:induction false} FirstPair(s: string, i: nat, pairs: seq<Pair>)
    requires i <= |s| && pairs != [] && s[i..] == Encode(pairs)
    ensures PairAt(s, i, pairs[0]) && s[i + PairLength(pairs[0])..] == Encode(pairs[1..])
    ensures pairs[1..] == [] <==> i + PairLength(pairs[0]) == |s|
  {
    hide Encode;
    var p, rest := pairs[0], Encode(pairs[1..]);
    var j := i + 1 + |p.key|;
    EncodeShape(pairs[1..]);
    EncodeNested(pairs);
    Field(s, i, p.key, "\\" + (p.value + rest));
    Field(s, j, p.value, rest);
    var e := i + PairLength(p);
    assert e < |s| ==> s[e] == s[e..][0];
  }

  lemma {:induction false} EncodeNested(pairs: seq<Pair>)
    requires pairs != []
    ensures Encode(pairs) == "\\" + (pairs[0].key + ("\\" + (pairs[0].value + Encode(pairs[1..]))))
  {
  }

  lemma {:induction false} Field(s: string, i: nat, text: string, rest: string)
    requires i <= |s| && s[i..] == "\\" + (text + rest)
    ensures i + 1 + |text| + |rest| == |s| && s[i] == '\\'
    ensures s[i + 1..i + 1 + |text|] == text && s[i + 1 + |text|..] == rest
  {
    var t := s[i..];
    assert s[i] == t[0];
    assert t[1..] == text + rest;
    assert s[i + 1..] == t[1..];
    assert s[i + 1..][..|text|] == text && s[i + 1..][|text|..] == rest;
  }

  lemma PairFits(s: string, i: nat, p: Pair)
    requires PairAt(s, i, p)
    ensures i < i + PairLength(p) <= |s|
  {
  }

  lemma {:induction false} Boundaries(s: string, i: nat, p: Pair)
    requires PairAt(s, i, p) && Plain(p)
    ensures Until(s, i + 1) == i + 1 + |p.key|
    ensures Until(s, i + 2 + |p.key|) == i + PairLength(p)
  {
    var j := i + 1 + |p.key|;
    var e := i + PairLength(p);
    forall k | i < k < j ensures s[k] != '\\' { assert s[k] == p.key[k - i - 1]; }
    forall k | j < k < e ensures s[k] != '\\' { assert s[k] == p.value[k - j - 1]; }
    UntilIs(s, i + 1, j);
    UntilIs(s, j + 1, e);
  }

  lemma {:induction false} LookupStep(s: string, i: nat, p: Pair, key: string)
    requires PairAt(s, i, p) && Plain(p)
    ensures LookupFrom(s, i + 1, key)
            == if SameKey(key, p.key) then p.value
               else if i + PairLength(p) == |s| then "" else LookupFrom(s, i + PairLength(p) + 1, key)
  {
    hide LookupFrom, SameKey, Until;
    Boundaries(s, i, p);
    LookupAt(s, i + 1, i + 1 + |p.key|, i + PairLength(p), key);
  }

  lemma {:induction false} RemoveStep(s: string, i: nat, p: Pair, key: string)
    requires PairAt(s, i, p) && Plain(p)
    ensures RemoveFrom(s, i, key)
            == if SameKey(key, p.key) then s[..i] + s[i + PairLength(p)..]
               else if i + PairLength(p) == |s| then s else RemoveFrom(s, i + PairLength(p), key)
  {
    hide RemoveFrom, SameKey, Until;
    Boundaries(s, i, p);
    RemoveAt(s, i, i + 1 + |p.key|, i + PairLength(p), key);
  }

  lemma {:induction false} RemoveAt(s: string, start: nat, j: nat, e: nat, key: string)
    requires start <= |s| && Until(s, SkipSeparator(s, start)) == j < |s| && Until(s, j + 1) == e
    ensures RemoveFrom(s, start, key)
            == if SameKey(key, s[SkipSeparator(s, start)..j]) then s[..start] + s[e..]
               else if e == |s| then s else RemoveFrom(s, e, key)
  {
    hide Until, SameKey, SkipSeparator;
  }

  lemma {:induction false} LookupAt(s: string, i: nat, j: nat, e: nat, key: string)
    requires i <= |s| && Until(s, i) == j < |s| && Until(s, j + 1) == e
    ensures LookupFrom(s, i, key)
            == if SameKey(key, s[i..j]) then s[j + 1..e]
               else if e == |s| then "" else LookupFrom(s, e + 1, key)
  {
    hide Until, SameKey, SkipSeparator;
  }

  /** The lookup tokeniser reads back the pairs. */
  lemma {:induction false} LookupEncoded(s: string, i: nat, pairs: seq<Pair>, key: string)
    requires i <= |s| && Proper(pairs) && pairs != [] && s[i..] == Encode(pairs)
    ensures i < |s| && LookupFrom(s, i + 1, key) == Assoc(pairs, key)
    decreases |pairs|
  {
    hide LookupFrom, PairAt, SameKey, Encode;
    FirstPair(s, i, pairs);
    assert PairAt(s, i, pairs[0]);
    PairFits(s, i, pairs[0]);
    LookupStep(s, i, pairs[0], key);
    if |pairs| > 1 {
      LookupEncoded(s, i + PairLength(pairs[0]), pairs[1..], key);
    }
  }

  /** The removing tokeniser reads the same pairs, and takes out the first that matches. */
  lemma {:induction false} RemoveEncoded(s: string, i: nat, pairs: seq<Pair>, key: string)
    requires i <= |s| && Proper(pairs) && s[i..] == Encode(pairs)
    ensures RemoveFrom(s, i, key) == s[..i] + Encode(Drop(pairs, key))
    decreases |pairs|
  {
    hide RemoveFrom, PairAt, SameKey, Encode;
    if pairs == [] {
      RemoveNothing(s, i, key);
    } else {
      var p, e := pairs[0], i + PairLength(pairs[0]);
      FirstPair(s, i, pairs);
      PairFits(s, i, p);
      RemoveStep(s, i, p, key);
      if SameKey(key, p.key) {
        assert Drop(pairs, key) == pairs[1..];
      } else {
        Splice(s, i, p, Drop(pairs[1..], key));
        if |pairs| > 1 {
          RemoveEncoded(s, e, pairs[1..], key);
        } else {
          assert s[..e] == s;
        }
      }
    }
  }

  lemma {:induction false} RemoveNothing(s: string, i: nat, key: string)
    requires i <= |s| && s[i..] == Encode([])
    ensures RemoveFrom(s, i, key) == s[..i] + Encode(Drop([], key))
  {
    assert s[..i] == s;
  }

  lemma {:induction false} Splice(s: string, i: nat, p: Pair, rest: seq<Pair>)
    requires PairAt(s, i, p)
    ensures s[..i + PairLength(p)] + Encode(rest) == s[..i] + Encode([p] + rest)
  {
    assert ([p] + rest)[1..] == rest;
    assert s[..i + PairLength(p)] == s[..i] + ("\\" + p.key + "\\" + p.value);
  }

  // ----- info strings as dictionaries -------------------------------------------------------

  lemma {:induction false} DropAssoc(pairs: seq<Pair>, key: string, k: string)
    requires Proper(pairs)
    ensures Assoc(Drop(pairs, key), k) == if SameKey(key, k) then "" else Assoc(pairs, k)
  {
    if pairs == [] {
    } else {
      if SameKey(key, pairs[0].key) {
        if SameKey(key, k) {
          AssocAbsent(pairs[1..], key, k);
        }
      } else {
        DropAssoc(pairs[1..], key, k);
        assert Drop(pairs, key)[1..] == Drop(pairs[1..], key);
      }
    }
  }

  lemma {:induction false} AssocAbsent(pairs: seq<Pair>, key: string, k: string)
    requires SameKey(key, k) && forall i | 0 <= i < |pairs| :: !SameKey(key, pairs[i].key)
    ensures Assoc(pairs, k) == ""
  {
    if pairs == [] {
    } else {
      assert !SameKey(key, pairs[0].key);
      AssocAbsent(pairs[1..], key, k);
    }
  }

  /** Removing a key leaves the others, in order, and none with that key. */
  lemma {:induction false} DropProper(pairs: seq<Pair>, key: string)
    requires Proper(pairs)
    ensures Proper(Drop(pairs, key))
    ensures forall p | p in Drop(pairs, key) :: p in pairs && !SameKey(key, p.key)
  {
    if pairs == [] {
    } else {
      var d := Drop(pairs, key);
      if SameKey(key, pairs[0].key) {
        forall p | p in d ensures p in pairs && !SameKey(key, p.key) {
          assert !SameKey(pairs[0].key, p.key);
        }
      } else {
        DropProper(pairs[1..], key);
        assert d[1..] == Drop(pairs[1..], key);
        forall i | 0 < i < |d| ensures Plain(d[i]) && !SameKey(d[0].key, d[i].key) {
          assert d[i] in d[1..];
        }
      }
    }
  }

  lemma {:induction false} AssocAppend(pairs: seq<Pair>, p: Pair, k: string)
    requires forall i | 0 <= i < |pairs| :: !SameKey(p.key, pairs[i].key)
    ensures Assoc(pairs + [p], k) == if SameKey(p.key, k) then p.value else Assoc(pairs, k)
  {
    if pairs == [] {
      assert pairs + [p] == [p];
    } else {
      assert (pairs + [p])[1..] == pairs[1..] + [p];
      assert !SameKey(p.key, pairs[0].key);
      AssocAppend(pairs[1..], p, k);
    }
  }

  lemma {:induction false} EncodeAppend(pairs: seq<Pair>, p: Pair)
    ensures Encode(pairs + [p]) == Encode(pairs) + ("\\" + p.key + "\\" + p.value)
  {
    var text := "\\" + p.key + "\\" + p.value;
    if pairs == [] {
      assert pairs + [p] == [p];
      assert Encode([p]) == text + Encode([]);
    } else {
      var first, rest := "\\" + pairs[0].key + "\\" + pairs[0].value, pairs[1..];
      calc {
        Encode(pairs + [p]);
      ==  { assert (pairs + [p])[1..] == rest + [p]; }
        first + Encode(rest + [p]);
      ==  { EncodeAppend(rest, p); }
        first + (Encode(rest) + text);
      ==
        (first + Encode(rest)) + text;
      }
    }
  }

  lemma {:induction false} LookupIsAssoc(pairs: seq<Pair>, key: string)
    requires Proper(pairs)
    ensures Lookup(Encode(pairs), key) == Assoc(pairs, key)
  {
    if pairs != [] {
      var s := Encode(pairs);
      EncodeShape(pairs);
      assert s[0..] == s;
      LookupEncoded(s, 0, pairs, key);
    }
  }

  lemma {:induction false} RemoveIsDrop(pairs: seq<Pair>, key: string)
    requires Proper(pairs) && '\\' !in key
    ensures Remove(Encode(pairs), key) == Encode(Drop(pairs, key))
  {
    var s := Encode(pairs);
    assert s[0..] == s && s[..0] == "";
    RemoveEncoded(s, 0, pairs, key);
    assert s[..0] + Encode(Drop(pairs, key)) == Encode(Drop(pairs, key));
  }

  // ----- what a string can become -------------------------------------------------------------

  /** A list of pairs, or a single key so long that it left no room for its value. */
  datatype Content = Pairs(pairs: seq<Pair>) | Jammed(key: string)

  function Text(c: Content): string {
    match c
    case Pairs(pairs) => Encode(pairs)
    case Jammed(key) => "\\" + key
  }

  ghost predicate Legal(c: Content, limit: nat) {
    match c
    case Pairs(pairs) => Proper(pairs)
    case Jammed(key) => '\\' !in key && |key| + 2 == limit
  }

  function Value(c: Content, key: string): string {
    match c
    case Pairs(pairs) => Assoc(pairs, key)
    case Jammed(_) => ""
  }

  function Without(c: Content, key: string): Content {
    match c
    case Pairs(pairs) => Pairs(Drop(pairs, key))
    case Jammed(_) => c
  }

  function Total(pairs: seq<Pair>): nat {
    if pairs == [] then 0 else PairLength(pairs[0]) + Total(pairs[1..])
  }

  function Size(c: Content): nat {
    match c
    case Pairs(pairs) => Total(pairs)
    case Jammed(key) => |key| + 1
  }

  lemma {:induction false} EncodeTotal(pairs: seq<Pair>)
    ensures |Encode(pairs)| == Total(pairs)
  {
    if pairs == [] {
    } else {
      EncodeTotal(pairs[1..]);
    }
  }

  lemma {:induction false} TextSize(c: Content)
    ensures |Text(c)| == Size(c)
  {
    match c
    case Pairs(pairs) => EncodeTotal(pairs);
    case Jammed(_) =>
  }

  /** Looking up a key in the string is looking it up in the content. */
  lemma {:induction false} LookupIsValue(c: Content, limit: nat, key: string)
    requires Legal(c, limit)
    ensures Lookup(Text(c), key) == Value(c, key)
  {
    match c
    case Pairs(pairs) => LookupIsAssoc(pairs, key);
    case Jammed(k) => NoSecondSeparator(k, key);
  }

  /** Removing a key from the string is removing it from the content. */
  lemma {:induction false} RemoveIsWithout(c: Content, limit: nat, key: string)
    requires Legal(c, limit) && '\\' !in key
    ensures Legal(Without(c, key), limit) && Remove(Text(c), key) == Text(Without(c, key))
  {
    match c
    case Pairs(pairs) =>
      RemoveIsDrop(pairs, key);
      DropProper(pairs, key);
    case Jammed(k) => NoSecondSeparator(k, key);
  }

  lemma {:induction false} NoSecondSeparator(k: string, key: string)
    requires '\\' !in k
    ensures Lookup("\\" + k, key) == "" && Remove("\\" + k, key) == "\\" + k
  {
    var s := "\\" + k;
    forall i | 1 <= i < |s| ensures s[i] != '\\' {
      assert s[i] == k[i - 1];
    }
    UntilIs(s, 1, |s|);
  }

  lemma {:induction false} DropShrinks(pairs: seq<Pair>, key: string)
    ensures Total(Drop(pairs, key)) <= Total(pairs)
  {
    if pairs == [] || SameKey(key, pairs[0].key) {
    } else {
      DropShrinks(pairs[1..], key);
      assert Drop(pairs, key)[1..] == Drop(pairs[1..], key);
    }
  }

  lemma {:induction false} WithoutShrinks(c: Content, key: string)
    ensures Size(Without(c, key)) <= Size(c)
  {
    match c
    case Pairs(pairs) => DropShrinks(pairs, key);
    case Jammed(_) =>
  }

  // ----- the reference: setting a key in the content --------------------------------------------

  /** None of the characters that would end a pair, a command or a quotation. */
  predicate Safe(s: string) {
    forall c | c in s :: c != '\\' && c != ';' && c != '\"'
  }

  /** The outcome, by characters and sizes alone. */
  function SpecOutcome(c: Content, key: string, value: string, limit: nat): Outcome
    requires limit >= 3
  {
    if Size(c) >= limit then Oversize
    else if !Safe(key) || !Safe(value) then Rejected
    else if value == "" then Deleted
    else if Min(|key| + |value| + 2, limit - 1) + Size(Without(c, key)) > limit then TooLong
    else Stored
  }

  predicate Overlong(key: string, limit: nat) {
    |key| + 3 > limit
  }

  /** What of `value` is kept when the pair has to fit the formatting buffer. */
  function Kept(key: string, value: string, limit: nat): string {
    if Overlong(key, limit) then "" else value[..Min(|value|, limit - 3 - |key|)]
  }

  function Appended(c: Content, key: string, value: string, limit: nat): Content
    requires limit >= 3
  {
    match c
    case Pairs(pairs) =>
      if Overlong(key, limit) then Jammed(key[..limit - 2]) else Pairs(pairs + [Pair(key, Kept(key, value, limit))])
    case Jammed(_) => c
  }

  function SpecSet(c: Content, key: string, value: string, limit: nat): Content
    requires limit >= 3
  {
    match SpecOutcome(c, key, value, limit)
    case Oversize => c
    case Rejected => c
    case Deleted => Without(c, key)
    case TooLong => Without(c, key)
    case Stored => Appended(Without(c, key), key, value, limit)
  }

  lemma {:induction false} PairTextKept(key: string, value: string, limit: nat)
    requires limit >= 3
    ensures |PairText(key, value, limit)| == Min(|key| + |value| + 2, limit - 1)
    ensures !Overlong(key, limit) ==> PairText(key, value, limit) == "\\" + key + "\\" + Kept(key, value, limit)
    ensures Overlong(key, limit) ==> PairText(key, value, limit) == "\\" + key[..limit - 2]
  {
  }

  lemma {:induction false} OutcomeIsSpecOutcome(c: Content, key: string, value: string, limit: nat)
    requires limit >= 3 && Legal(c, limit)
    ensures SetOutcome(Text(c), key, value, limit) == SpecOutcome(c, key, value, limit)
  {
    hide Text, Size, Remove, Without, PairText;
    TextSize(c);
    PairTextKept(key, value, limit);
    if '\\' !in key {
      RemoveIsWithout(c, limit, key);
      TextSize(Without(c, key));
    }
  }

  /** What fits is appended: after other pairs, or, if the key is overlong, to nothing. */
  lemma {:induction false} AppendedText(c: Content, key: string, value: string, limit: nat)
    requires limit >= 3 && Legal(c, limit) && !HasForbidden(key) && value != ""
    requires Min(|key| + |value| + 2, limit - 1) + Size(c) <= limit
    ensures c.Pairs? && (Overlong(key, limit) ==> c.pairs == [])
    ensures Text(c) + PairText(key, value, limit) == Text(Appended(c, key, value, limit))
  {
    hide Encode, SameKey;
    PairTextKept(key, value, limit);
    if c.Pairs? && !Overlong(key, limit) {
      EncodeAppend(c.pairs, Pair(key, Kept(key, value, limit)));
    } else if c.Pairs? {
      NothingToEncode();
      assert "" + PairText(key, value, limit) == PairText(key, value, limit);
    }
  }

  lemma {:induction false} NothingToEncode()
    ensures Encode([]) == ""
  {
  }

  lemma {:induction false} AppendedLegal(c: Content, key: string, value: string, limit: nat)
    requires limit >= 3 && Legal(c, limit) && !HasForbidden(key) && !HasForbidden(value)
    ensures Legal(Appended(Without(c, key), key, value, limit), limit)
  {
    match c
    case Jammed(_) =>
    case Pairs(pairs) =>
      DropProper(pairs, key);
      SymmetricKeys(Drop(pairs, key), key);
  }

  /** Setting a key acts on the string exactly as it acts on the content, for every key and value,
      and keys stay distinct. */
  lemma {:induction false} SetIsSpecSet(c: Content, key: string, value: string, limit: nat)
    requires limit >= 3 && Legal(c, limit)
    ensures Legal(SpecSet(c, key, value, limit), limit)
    ensures SetValue(Text(c), key, value, limit) == Text(SpecSet(c, key, value, limit))
  {
    hide Text, Legal, Remove, Without, PairText, Appended, Size;
    OutcomeIsSpecOutcome(c, key, value, limit);
    var outcome := SpecOutcome(c, key, value, limit);
    if outcome != Oversize && outcome != Rejected {
      RemoveIsWithout(c, limit, key);
      if outcome == Stored {
        AppendedText(Without(c, key), key, value, limit);
        AppendedLegal(c, key, value, limit);
      }
    }
  }

  lemma {:induction false} SymmetricKeys(pairs: seq<Pair>, key: string)
    requires forall p | p in pairs :: !SameKey(key, p.key)
    ensures forall i | 0 <= i < |pairs| :: !SameKey(pairs[i].key, key) && !SameKey(key, pairs[i].key)
  {
    forall i | 0 <= i < |pairs| ensures !SameKey(pairs[i].key, key) && !SameKey(key, pairs[i].key) {
      assert pairs[i] in pairs;
    }
  }

  /** The value under any key `k` after a set of `key`. */
  function ValueAfter(before: string, outcome: Outcome, key: string, kept: string, k: string): string {
    if outcome == Oversize || outcome == Rejected || !SameKey(key, k) then before
    else if outcome == Stored then kept else ""
  }

  lemma {:induction false} WithoutValue(c: Content, limit: nat, key: string, k: string)
    requires Legal(c, limit)
    ensures Value(Without(c, key), k) == if SameKey(key, k) then "" else Value(c, k)
  {
    match c
    case Jammed(_) =>
    case Pairs(pairs) => DropAssoc(pairs, key, k);
  }

  lemma {:induction false} AppendedValue(c: Content, key: string, value: string, limit: nat, k: string)
    requires limit >= 3 && Legal(c, limit) && c.Pairs? && !HasForbidden(key)
    requires Overlong(key, limit) ==> Drop(c.pairs, key) == []
    ensures Value(Appended(Without(c, key), key, value, limit), k)
            == if SameKey(key, k) then Kept(key, value, limit) else Value(Without(c, key), k)
  {
    if !Overlong(key, limit) {
      DropProper(c.pairs, key);
      SymmetricKeys(Drop(c.pairs, key), key);
      AssocAppend(Drop(c.pairs, key), Pair(key, Kept(key, value, limit)), k);
    }
  }

  /** After a set, looking up any key gives its old value, the new one, or nothing. */
  lemma {:induction false} SetThenLookup(c: Content, key: string, value: string, limit: nat, k: string)
    requires limit >= 3 && Legal(c, limit)
    ensures Lookup(SetValue(Text(c), key, value, limit), k)
            == ValueAfter(Lookup(Text(c), k), SetOutcome(Text(c), key, value, limit), key, Kept(key, value, limit), k)
  {
    hide Text, Legal, PairText, Appended, Size, Lookup, SameKey, SetValue, SetOutcome, Drop, Value, Kept;
    SetIsSpecSet(c, key, value, limit);
    OutcomeIsSpecOutcome(c, key, value, limit);
    LookupIsValue(c, limit, k);
    LookupIsValue(SpecSet(c, key, value, limit), limit, k);
    var outcome := SpecOutcome(c, key, value, limit);
    WithoutValue(c, limit, key, k);
    if outcome == Stored {
      RemoveIsWithout(c, limit, key);
      AppendedText(Without(c, key), key, value, limit);
      AppendedValue(c, key, value, limit, k);
    }
  }

  /** Reading back what was set. It succeeds exactly when the pair fits the formatting buffer
      and what is left of the string; otherwise the old value is gone all the same. */
  lemma {:induction false} ReadBack(c: Content, key: string, value: string, limit: nat)
    requires limit >= 3 && Legal(c, limit) && |Text(c)| < limit
    requires !HasForbidden(key) && !HasForbidden(value) && value != ""
    ensures var s := Text(c);
            Lookup(SetValue(s, key, value, limit), key) == value
            <==> |key| + |value| + 3 <= limit && |Remove(s, key)| + |key| + |value| + 2 <= limit
    ensures var s := Text(c);
            SetOutcome(s, key, value, limit) == TooLong ==> Lookup(SetValue(s, key, value, limit), key) == ""
  {
    hide Text, Legal, Remove, Lookup, PairText;
    SetThenLookup(c, key, value, limit, key);
    PairTextKept(key, value, limit);
  }

  /** A key that fills the formatting buffer cannot be found again, stored or not, and is stored
      exactly if nothing else is left. */
  lemma {:induction false} OverlongKeyIsLost(c: Content, key: string, value: string, limit: nat)
    requires limit >= 3 && Legal(c, limit) && |Text(c)| < limit && Overlong(key, limit)
    requires !HasForbidden(key) && !HasForbidden(value) && value != ""
    ensures Lookup(SetValue(Text(c), key, value, limit), key) == ""
    ensures Remove(Text(c), key) == "" <==> SetOutcome(Text(c), key, value, limit) == Stored
  {
    hide Text, Legal, Remove, Lookup, PairText, SameKey, SetValue;
    SetThenLookup(c, key, value, limit, key);
    SameAsItself(key);
    PairTextKept(key, value, limit);
    RemoveIsWithout(c, limit, key);
    TextSize(Without(c, key));
    if SetOutcome(Text(c), key, value, limit) == Stored {
      AppendedText(Without(c, key), key, value, limit);
      NothingToEncode();
    }
  }

  lemma SameAsItself(key: string)
    ensures SameKey(key, key)
  {
  }

  /** Once stored, it hides every other key and turns away every later set. */
  lemma {:induction false} OverlongKeyJams(c: Content, key: string, value: string, limit: nat, k: string, v: string)
    requires limit >= 3 && Legal(c, limit) && Overlong(key, limit)
    requires SetOutcome(Text(c), key, value, limit) == Stored
    ensures var s := SetValue(Text(c), key, value, limit);
            && Remove(Text(c), key) == "" && Lookup(s, k) == ""
            && SetValue(s, k, v, limit) == s && SetOutcome(s, k, v, limit) != Stored
  {
    hide Encode, Drop, Assoc, Remove, Lookup, PairText, SameKey, SetValue, SetOutcome;
    OutcomeIsSpecOutcome(c, key, value, limit);
    RemoveIsWithout(c, limit, key);
    NothingToEncode();
    AppendedText(Without(c, key), key, value, limit);
    SetIsSpecSet(c, key, value, limit);
    var jammed := SpecSet(c, key, value, limit);
    LookupIsValue(jammed, limit, k);
    OutcomeIsSpecOutcome(jammed, k, v, limit);
    SetIsSpecSet(jammed, k, v, limit);
  }

  // ----- the length test ----------------------------------------------------------------------

  /** A set that starts from a string below the limit ends at most at the limit, and reaches it
      exactly when the pair is stored and fills what is left. A buffer of `limit` bytes has then no
      room for the terminator. */
  lemma {:induction false} ReachesLimitIff(c: Content, key: string, value: string, limit: nat)
    requires limit >= 3 && Legal(c, limit) && |Text(c)| < limit
    ensures var s := Text(c);
            var r := SetValue(s, key, value, limit);
            && |r| <= limit
            && (|r| == limit <==>
                  !HasForbidden(key) && !HasForbidden(value) && value != ""
                  && |Remove(s, key)| + |PairText(key, value, limit)| == limit)
  {
    hide Text, Legal, Remove, PairText;
    if '\\' !in key {
      RemoveIsWithout(c, limit, key);
      TextSize(c);
      TextSize(Without(c, key));
      WithoutShrinks(c, key);
    }
  }

  /** The smallest instance: from `\a\x…x`, four characters below the limit. Every later set of
      any key is then turned away as oversize. */
  lemma {:induction false} LimitIsReached(filler: string, limit: nat, key: string, value: string)
    requires filler != "" && !HasForbidden(filler) && limit == |filler| + 7
    ensures var s := Encode([Pair("a", filler)]);
            && Proper([Pair("a", filler)]) && |s| < limit
            && var r := SetValue(s, "b", "c", limit);
              |r| == limit && SetOutcome(r, key, value, limit) == Oversize && SetValue(r, key, value, limit) == r
  {
    var pairs := [Pair("a", filler)];
    assert !SameKey("b", "a") by {
      assert Fold("b"[0]) != Fold("a"[0]);
    }
    assert pairs[1..] == [];
    assert Drop(pairs, "b") == pairs;
    assert Encode(pairs) == "\\" + "a" + "\\" + filler + Encode([]);
    RemoveIsDrop(pairs, "b");
    assert PairText("b", "c", limit) == "\\b\\c";
  }

  // ----- runs -------------------------------------------------------------------------------

  /** A set on a string below the limit is rejected exactly for a backslash, a semicolon or a quotation
      mark in its key or value. */
  lemma {:induction false} RejectedIff(s: string, key: string, value: string, limit: nat)
    requires |s| < limit
    ensures SetOutcome(s, key, value, limit) == Rejected
            <==> '\\' in key || ';' in key || '\"' in key || '\\' in value || ';' in value || '\"' in value
  {
  }

  /** An empty value deletes the key, and only that. */
  lemma {:induction false} EmptyDeletes(c: Content, key: string, limit: nat, k: string)
    requires limit >= 3 && Legal(c, limit) && |Text(c)| < limit && Safe(key)
    ensures Lookup(SetValue(Text(c), key, "", limit), k) == if SameKey(key, k) then "" else Lookup(Text(c), k)
  {
    hide Text, Legal, Lookup, SameKey, SetValue, Remove;
    SetThenLookup(c, key, "", limit, k);
  }

  lemma {:induction false} RemoveAddsNothing(s: string, start: nat, key: string, ch: char)
    requires start <= |s| && ch in RemoveFrom(s, start, key)
    ensures ch in s
    decreases |s| - start
  {
    hide RemoveFrom, SameKey, Until;
    var i := SkipSeparator(s, start);
    var j := Until(s, i);
    if j == |s| {
      RemoveMiss(s, start, key);
    } else {
      var e := Until(s, j + 1);
      RemoveAt(s, start, j, e, key);
      if !SameKey(key, s[i..j]) && e < |s| {
        RemoveAddsNothing(s, e, key, ch);
      }
    }
  }

  lemma {:induction false} RemoveMiss(s: string, start: nat, key: string)
    requires start <= |s|
    ensures Until(s, SkipSeparator(s, start)) == |s| ==> RemoveFrom(s, start, key) == s
  {
  }

  datatype SetCall = SetCall(key: string, value: string)

  /** The string after a sequence of sets, oldest first, starting from the empty string. */
  function Run(calls: seq<SetCall>, limit: nat): string
    requires limit > 0
  {
    if calls == [] then ""
    else
      var n := |calls| - 1;
      SetValue(Run(calls[..n], limit), calls[n].key, calls[n].value, limit)
  }

  /** The content those sets describe. */
  function SpecRun(calls: seq<SetCall>, limit: nat): Content
    requires limit >= 3
  {
    if calls == [] then Pairs([])
    else
      var n := |calls| - 1;
      SpecSet(SpecRun(calls[..n], limit), calls[n].key, calls[n].value, limit)
  }

  /** For each key the value of the last call for it that was not turned away, or nothing if that
      call deleted it or did not fit. */
  function Recorded(calls: seq<SetCall>, limit: nat, k: string): string
    requires limit >= 3
  {
    if calls == [] then ""
    else
      var n := |calls| - 1;
      var c := calls[n];
      var outcome := SpecOutcome(SpecRun(calls[..n], limit), c.key, c.value, limit);
      ValueAfter(Recorded(calls[..n], limit, k), outcome, c.key, Kept(c.key, c.value, limit), k)
  }

  /** No run of sets brings a semicolon or a quotation mark into the string. */
  lemma {:induction false} RunIsHarmless(calls: seq<SetCall>, limit: nat)
    requires limit > 0
    ensures ';' !in Run(calls, limit) && '\"' !in Run(calls, limit)
  {
    if calls == [] {
    } else {
      var n := |calls| - 1;
      RunIsHarmless(calls[..n], limit);
      SetIsHarmless(Run(calls[..n], limit), calls[n].key, calls[n].value, limit, ';');
      SetIsHarmless(Run(calls[..n], limit), calls[n].key, calls[n].value, limit, '\"');
    }
  }

  lemma {:induction false} SetIsHarmless(s: string, key: string, value: string, limit: nat, ch: char)
    requires limit > 0 && ch !in s && (ch == ';' || ch == '\"')
    ensures ch !in SetValue(s, key, value, limit)
  {
    hide RemoveFrom;
    if ch in Remove(s, key) {
      RemoveAddsNothing(s, 0, key, ch);
    }
    if !HasForbidden(key) && !HasForbidden(value) && |s| < limit {
      RejectedIff(s, key, value, limit);
      assert ch !in "\\" + key + "\\" + value;
    }
  }

  lemma {:induction false} SetFits(c: Content, key: string, value: string, limit: nat)
    requires limit >= 3 && Legal(c, limit) && |Text(c)| <= limit
    ensures |SetValue(Text(c), key, value, limit)| <= limit
  {
    if |Text(c)| < limit {
      ReachesLimitIff(c, key, value, limit);
    }
  }

  /** In every run the string spells the content that the calls describe: pairs with keys that are
      distinct without regard to case, or one jammed key. */
  lemma {:induction false} RunIsSpecRun(calls: seq<SetCall>, limit: nat)
    requires limit >= 3
    ensures Legal(SpecRun(calls, limit), limit)
    ensures Run(calls, limit) == Text(SpecRun(calls, limit)) && |Run(calls, limit)| <= limit
  {
    if calls == [] {
    } else {
      hide Legal, Text, SetValue;
      var n := |calls| - 1;
      RunIsSpecRun(calls[..n], limit);
      SetIsSpecSet(SpecRun(calls[..n], limit), calls[n].key, calls[n].value, limit);
      SetFits(SpecRun(calls[..n], limit), calls[n].key, calls[n].value, limit);
    }
  }

  /** In every run, looking up any key gives what the calls recorded for it. */
  lemma {:induction false} RunIsDictionary(calls: seq<SetCall>, limit: nat, k: string)
    requires limit >= 3
    ensures Lookup(Run(calls, limit), k) == Recorded(calls, limit, k)
  {
    if calls == [] {
    } else {
      hide Legal, Text, SetValue, Lookup, ValueAfter, SpecSet, Kept;
      var n := |calls| - 1;
      RunIsDictionary(calls[..n], limit, k);
      RunIsSpecRun(calls[..n], limit);
      SetThenLookup(SpecRun(calls[..n], limit), calls[n].key, calls[n].value, limit, k);
      OutcomeIsSpecOutcome(SpecRun(calls[..n], limit), calls[n].key, calls[n].value, limit);
    }
  }
}
