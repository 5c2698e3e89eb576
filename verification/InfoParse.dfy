/** Info strings of any shape: with or without the leading separator, with repeated keys, with a key
    that dangles at the end. What the routines of `InfoStrings` do to all of them. */
module InfoParsing {
  import opened CTypes
  import opened InfoStrings

  /** The pairs from position `i` on, where a key starts. */
  function ParsedAt(s: string, i: nat): seq<Pair>
    requires i <= |s|
    decreases |s| - i, 0
  {
    var j := Until(s, i);
    if j == |s| then []
    else
      var e := Until(s, j + 1);
      [Pair(s[i..j], s[j + 1..e])] + RestAt(s, e)
  }

  /** The pairs behind one that ends at `e`. */
  function RestAt(s: string, e: nat): seq<Pair>
    requires e <= |s|
    decreases |s| - e, 1
  {
    if e == |s| then [] else ParsedAt(s, e + 1)
  }

  /** What is left behind the last pair: nothing, or a key without a value. */
  function TailAt(s: string, i: nat): string
    requires i <= |s|
    decreases |s| - i, 0
  {
    var j := Until(s, i);
    if j == |s| then "\\" + s[i..] else RestTail(s, Until(s, j + 1))
  }

  function RestTail(s: string, e: nat): string
    requires e <= |s|
    decreases |s| - e, 1
  {
    if e == |s| then "" else TailAt(s, e + 1)
  }

  function Parsed(s: string): seq<Pair> {
    ParsedAt(s, SkipSeparator(s, 0))
  }

  function Tail(s: string): string {
    TailAt(s, SkipSeparator(s, 0))
  }

  ghost predicate Dangling(tail: string) {
    tail == "" || (tail[0] == '\\' && '\\' !in tail[1..])
  }

  lemma {:induction false} UntilIsClean(s: string, i: nat, k: nat)
    requires i <= |s| && i <= k < Until(s, i)
    ensures s[k] != '\\'
    decreases |s| - i
  {
    if i == k {
    } else {
      UntilIsClean(s, i + 1, k);
    }
  }

  lemma {:induction false} SliceIsClean(s: string, i: nat)
    requires i <= |s|
    ensures '\\' !in s[i..Until(s, i)]
  {
    forall k | i <= k < Until(s, i) ensures s[k] != '\\' {
      UntilIsClean(s, i, k);
    }
  }

  lemma {:induction false} EncodeCons(p: Pair, rest: seq<Pair>)
    ensures Encode([p] + rest) == Spelled(p) + Encode(rest)
  {
    assert ([p] + rest)[1..] == rest;
  }

  function Spelled(p: Pair): string {
    "\\" + p.key + "\\" + p.value
  }

  lemma {:induction false} ParseEnd(s: string, i: nat)
    requires i <= |s| && Until(s, i) == |s|
    ensures ParsedAt(s, i) == [] && TailAt(s, i) == "\\" + s[i..]
    ensures Dangling(TailAt(s, i))
  {
    SliceIsClean(s, i);
    assert s[i..|s|] == s[i..];
    assert TailAt(s, i)[1..] == s[i..];
  }

  lemma {:induction false} ParseStep(s: string, i: nat, j: nat, e: nat)
    requires i <= |s| && Until(s, i) == j < |s| && Until(s, j + 1) == e
    ensures var p := Pair(s[i..j], s[j + 1..e]);
            && ParsedAt(s, i) == [p] + RestAt(s, e) && ParsedAt(s, i)[0] == p && ParsedAt(s, i)[1..] == RestAt(s, e)
            && TailAt(s, i) == RestTail(s, e) && Plain(p)
  {
    hide Until, ParsedAt, TailAt;
    ParseUnfold(s, i, j, e);
    SliceIsClean(s, i);
    SliceIsClean(s, j + 1);
    assert ([Pair(s[i..j], s[j + 1..e])] + RestAt(s, e))[1..] == RestAt(s, e);
  }

  lemma {:induction false} ParseUnfold(s: string, i: nat, j: nat, e: nat)
    requires i <= |s| && Until(s, i) == j < |s| && Until(s, j + 1) == e
    ensures ParsedAt(s, i) == [Pair(s[i..j], s[j + 1..e])] + RestAt(s, e) && TailAt(s, i) == RestTail(s, e)
  {
    hide Until, RestAt, RestTail;
  }

  lemma {:induction false} Unfolded(s: string, i: nat, j: nat, e: nat)
    requires i <= j < e <= |s| && s[j] == '\\'
    ensures "\\" + s[i..] == Spelled(Pair(s[i..j], s[j + 1..e])) + s[e..]
  {
    assert s[i..] == s[i..j] + (s[j..j + 1] + (s[j + 1..e] + s[e..]));
    assert s[j..j + 1] == "\\";
  }

  lemma {:induction false} NextStart(s: string, e: nat)
    requires e < |s| && s[e] == '\\'
    ensures s[e..] == "\\" + s[e + 1..]
  {
    assert s[e..e + 1] == "\\";
  }

  lemma Reassociate(a: string, b: string, c: string)
    ensures a + (b + c) == (a + b) + c
  {
  }

  lemma Nothing(s: string)
    ensures "" + s == s && s + "" == s
  {
  }

  /** The pairs and the tail spell the string, and no part of them contains the separator. */
  lemma {:induction false} ParsedSpells(s: string, i: nat)
    requires i <= |s|
    ensures "\\" + s[i..] == Encode(ParsedAt(s, i)) + TailAt(s, i)
    ensures (forall p | p in ParsedAt(s, i) :: Plain(p)) && Dangling(TailAt(s, i))
    decreases |s| - i, 2
  {
    hide Until, Encode, ParsedAt, TailAt, Spelled, Plain, Dangling;
    var j := Until(s, i);
    NothingToEncode();
    if j == |s| {
      ParseEnd(s, i);
      Nothing(TailAt(s, i));
    } else {
      var e := Until(s, j + 1);
      var p := Pair(s[i..j], s[j + 1..e]);
      ParseStep(s, i, j, e);
      Unfolded(s, i, j, e);
      EncodeCons(p, RestAt(s, e));
      RestSpells(s, e);
      Reassociate(Spelled(p), Encode(RestAt(s, e)), RestTail(s, e));
    }
  }

  lemma {:induction false} RestSpells(s: string, e: nat)
    requires e <= |s| && (e < |s| ==> s[e] == '\\')
    ensures s[e..] == Encode(RestAt(s, e)) + RestTail(s, e)
    ensures (forall p | p in RestAt(s, e) :: Plain(p)) && Dangling(RestTail(s, e))
    decreases |s| - e, 1
  {
    if e == |s| {
      NothingToEncode();
    } else {
      NextStart(s, e);
      ParsedSpells(s, e + 1);
    }
  }

  /** Looking up a key, in any string, finds the first of its pairs with that key. */
  lemma {:induction false} LookupIsFirst(s: string, i: nat, key: string)
    requires i <= |s|
    ensures LookupFrom(s, i, key) == Assoc(ParsedAt(s, i), key)
    decreases |s| - i
  {
    hide Until, SameKey, LookupFrom, ParsedAt;
    var j := Until(s, i);
    if j == |s| {
      ParseEnd(s, i);
      LookupEnd(s, i, key);
    } else {
      var e := Until(s, j + 1);
      ParseStep(s, i, j, e);
      LookupAt(s, i, j, e, key);
      if e < |s| {
        LookupIsFirst(s, e + 1, key);
      }
    }
  }

  lemma {:induction false} LookupEnd(s: string, i: nat, key: string)
    requires i <= |s| && Until(s, i) == |s|
    ensures LookupFrom(s, i, key) == ""
  {
  }

  /** Removing a key from position `start` on, where a separator stands, takes out the first pair with
      that key, and nothing else. */
  lemma {:induction false} RemoveIsDropFirst(s: string, start: nat, key: string)
    requires start < |s| && s[start] == '\\'
    ensures RemoveFrom(s, start, key) == s[..start] + (Encode(Drop(ParsedAt(s, start + 1), key)) + TailAt(s, start + 1))
    decreases |s| - start
  {
    hide Until, SameKey, RemoveFrom, Encode, ParsedAt, TailAt, Spelled, Plain;
    var i := start + 1;
    var j := Until(s, i);
    ParsedSpells(s, i);
    NextStart(s, start);
    Rejoined(s, start);
    if j == |s| {
      ParseEnd(s, i);
      RemoveMiss(s, start, key);
    } else {
      var e := Until(s, j + 1);
      var p := Pair(s[i..j], s[j + 1..e]);
      hide Drop, RestAt, RestTail;
      ParseStep(s, i, j, e);
      RemoveAt(s, start, j, e, key);
      DropCons(p, RestAt(s, e), key);
      if SameKey(key, p.key) {
        RestSpells(s, e);
      } else if e < |s| {
        RestIs(s, e);
        RemoveIsDropFirst(s, e, key);
        Extended(s, start, j, e, Drop(ParsedAt(s, e + 1), key), TailAt(s, e + 1));
      } else {
        RestIs(s, e);
        DropNothing(key);
      }
    }
  }

  lemma {:induction false} RestIs(s: string, e: nat)
    requires e <= |s|
    ensures RestAt(s, e) == (if e == |s| then [] else ParsedAt(s, e + 1))
    ensures RestTail(s, e) == (if e == |s| then "" else TailAt(s, e + 1))
  {
  }

  lemma {:induction false} DropCons(p: Pair, rest: seq<Pair>, key: string)
    ensures Drop([p] + rest, key) == if SameKey(key, p.key) then rest else [p] + Drop(rest, key)
  {
    assert ([p] + rest)[1..] == rest;
  }

  lemma {:induction false} DropNothing(key: string)
    ensures Drop([], key) == []
  {
  }

  /** A pair that stays, in front of what is left. */
  lemma {:induction false} Extended(s: string, start: nat, j: nat, e: nat, rest: seq<Pair>, tail: string)
    requires start < j < e <= |s| && s[start] == '\\' && s[j] == '\\'
    ensures s[..e] + (Encode(rest) + tail)
            == s[..start] + (Encode([Pair(s[start + 1..j], s[j + 1..e])] + rest) + tail)
  {
    hide Encode, Spelled;
    var p := Pair(s[start + 1..j], s[j + 1..e]);
    EncodeCons(p, rest);
    KeptFront(s, start, j, e);
    Regrouped(s[..start], Spelled(p), Encode(rest), tail);
  }

  lemma Rejoined(s: string, start: nat)
    requires start <= |s|
    ensures s[..start] + s[start..] == s
  {
  }

  lemma {:induction false} KeptFront(s: string, start: nat, j: nat, e: nat)
    requires start < j < e <= |s| && s[start] == '\\' && s[j] == '\\'
    ensures s[..e] == s[..start] + Spelled(Pair(s[start + 1..j], s[j + 1..e]))
  {
    assert s[start..e] == Spelled(Pair(s[start + 1..j], s[j + 1..e]));
    assert s[..e] == s[..start] + s[start..e];
  }

  lemma Regrouped(a: string, b: string, c: string, d: string)
    ensures (a + b) + (c + d) == a + ((b + c) + d)
  {
  }

  predicate Leads(s: string) {
    s != "" && s[0] == '\\'
  }

  /** A lookup, in every string, returns the first value of the key. */
  lemma {:induction false} LookupEvery(s: string, key: string)
    ensures Lookup(s, key) == Assoc(Parsed(s), key)
  {
    LookupIsFirst(s, SkipSeparator(s, 0), key);
  }

  /** With the leading separator put back if it is missing, every string is its pairs and its tail. */
  lemma {:induction false} SpellsEvery(s: string)
    ensures (if Leads(s) then s else "\\" + s) == Encode(Parsed(s)) + Tail(s)
    ensures (forall p | p in Parsed(s) :: Plain(p)) && Dangling(Tail(s))
  {
    hide ParsedAt, TailAt, Encode, Plain, Dangling;
    ParsedSpells(s, SkipSeparator(s, 0));
    if Leads(s) {
      NextStart(s, 0);
      assert s[0..] == s;
    } else {
      assert s[0..] == s;
    }
  }

  /** A removal, in every string, takes out the first pair of the key. The leading separator, if it is
      missing, stays missing, unless the first pair goes and the rest brings its own. */
  lemma {:induction false} RemoveEvery(s: string, key: string)
    requires '\\' !in key
    ensures var left := Encode(Drop(Parsed(s), key)) + Tail(s);
            var pairs := Parsed(s);
            Remove(s, key)
            == if Leads(s) || (pairs != [] && SameKey(key, pairs[0].key)) then left else left[1..]
  {
    hide Until, SameKey, RemoveFrom, Encode, ParsedAt, TailAt, Spelled, Plain, Dangling;
    if Leads(s) {
      RemoveIsDropFirst(s, 0, key);
      Nothing(Encode(Drop(Parsed(s), key)) + Tail(s));
    } else {
      RemoveUnled(s, key);
    }
  }

  lemma {:induction false} RemoveUnled(s: string, key: string)
    requires !Leads(s)
    ensures var left := Encode(Drop(ParsedAt(s, 0), key)) + TailAt(s, 0);
            var pairs := ParsedAt(s, 0);
            RemoveFrom(s, 0, key) == if pairs != [] && SameKey(key, pairs[0].key) then left else left[1..]
  {
    hide Until, SameKey, RemoveFrom, Encode, ParsedAt, TailAt, Plain, Dangling;
    var j := Until(s, 0);
    assert s[0..] == s;
    ParsedSpells(s, 0);
    assert ("\\" + s)[1..] == s;
    if j == |s| {
      ParseEnd(s, 0);
      RemoveMiss(s, 0, key);
    } else {
      var e := Until(s, j + 1);
      var p := Pair(s[0..j], s[j + 1..e]);
      hide Drop, RestAt, RestTail;
      ParseStep(s, 0, j, e);
      RemoveAt(s, 0, j, e, key);
      DropCons(p, RestAt(s, e), key);
      RestIs(s, e);
      if SameKey(key, p.key) {
        RestSpells(s, e);
        Nothing(s[e..]);
        assert s[..0] == "";
      } else if e < |s| {
        var rest := Drop(ParsedAt(s, e + 1), key);
        RemoveIsDropFirst(s, e, key);
        EncodeCons(p, rest);
        FrontUnled(s, j, e, Encode(rest), TailAt(s, e + 1));
      } else {
        DropNothing(key);
      }
    }
  }

  lemma {:induction false} FrontUnled(s: string, j: nat, e: nat, rest: string, tail: string)
    requires j < e <= |s| && s[j] == '\\'
    ensures s[..e] + (rest + tail) == ((Spelled(Pair(s[0..j], s[j + 1..e])) + rest) + tail)[1..]
  {
    assert "\\" + s[..e] == Spelled(Pair(s[0..j], s[j + 1..e]));
    assert (("\\" + s[..e] + rest) + tail)[1..] == s[..e] + (rest + tail);
  }
}
