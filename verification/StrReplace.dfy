/** `str_replace`: count the occurrences, allocate, fill. */
module StrReplace {
  import opened CTypes

  // ----- strstr -----------------------------------------------------------------------------

  predicate OccursAt(s: string, rep: string, i: int) {
    0 <= i && i + |rep| <= |s| && s[i..i + |rep|] == rep
  }

  /** `strstr`: the leftmost occurrence at or after `i`. */
  function Find(s: string, rep: string, i: nat): (r: Option<nat>)
    requires i <= |s|
    ensures r.Some? ==> i <= r.value <= |s| && OccursAt(s, rep, r.value)
    decreases |s| - i
  {
    if OccursAt(s, rep, i) then Some(i)
    else if i == |s| then None
    else Find(s, rep, i + 1)
  }

  /** No occurrence precedes the one found, and none exists if none is found. */
  lemma {:induction false} FindIsLeftmost(s: string, rep: string, i: nat, k: nat)
    requires i <= k <= |s| && OccursAt(s, rep, k)
    ensures Find(s, rep, i).Some? && Find(s, rep, i).value <= k
    decreases |s| - i
  {
    if OccursAt(s, rep, i) {
    } else {
      FindIsLeftmost(s, rep, i + 1, k);
    }
  }

  // ----- the meaning ------------------------------------------------------------------------

  /** The text between occurrences from `i` on, resuming after each occurrence. */
  function Pieces(s: string, rep: string, i: nat): (p: seq<string>)
    requires rep != "" && i <= |s|
    ensures p != []
    decreases |s| - i
  {
    var f := Find(s, rep, i);
    if f.None? then [s[i..]] else [s[i..f.value]] + Pieces(s, rep, f.value + |rep|)
  }

  function Join(pieces: seq<string>, glue: string): string
    requires pieces != []
  {
    if |pieces| == 1 then pieces[0] else pieces[0] + glue + Join(pieces[1..], glue)
  }

  /** Replace-all, from `i` on. */
  function Replaced(s: string, rep: string, sub: string, i: nat): string
    requires rep != "" && i <= |s|
  {
    Join(Pieces(s, rep, i), sub)
  }

  function Count(s: string, rep: string, i: nat): nat
    requires rep != "" && i <= |s|
  {
    |Pieces(s, rep, i)| - 1
  }

  lemma {:induction false} Unfold(s: string, rep: string, sub: string, i: nat)
    requires rep != "" && i <= |s|
    ensures var f := Find(s, rep, i);
            if f.None? then Replaced(s, rep, sub, i) == s[i..] && Count(s, rep, i) == 0
            else
              && Replaced(s, rep, sub, i) == s[i..f.value] + sub + Replaced(s, rep, sub, f.value + |rep|)
              && Count(s, rep, i) == 1 + Count(s, rep, f.value + |rep|)
  {
    var f := Find(s, rep, i);
    if f.Some? {
      assert Pieces(s, rep, i)[1..] == Pieces(s, rep, f.value + |rep|);
    }
  }

  lemma CutAround(s: string, i: nat, j: nat, k: nat)
    requires i <= j <= k <= |s|
    ensures s[i..] == s[i..j] + s[j..k] + s[k..]
  {
  }

  /** Joined by the searched text, the pieces spell the original. */
  lemma {:induction false} PiecesSpell(s: string, rep: string, i: nat)
    requires rep != "" && i <= |s|
    ensures Replaced(s, rep, rep, i) == s[i..]
    decreases |s| - i
  {
    hide Replaced, Count, Find;
    Unfold(s, rep, rep, i);
    var f := Find(s, rep, i);
    if f.None? {
    } else {
      PiecesSpell(s, rep, f.value + |rep|);
      CutAround(s, i, f.value, f.value + |rep|);
    }
  }

  lemma {:induction false} SliceOfSlice(s: string, i: nat, stop: nat, k: nat, n: nat)
    requires i <= stop <= |s| && k + n <= stop - i
    ensures s[i..stop][k..k + n] == s[i + k..i + k + n]
  {
    var a, b := s[i..stop][k..k + n], s[i + k..i + k + n];
    assert forall j | 0 <= j < n :: a[j] == b[j];
  }

  lemma {:induction false} FirstPieceIsClean(s: string, rep: string, i: nat, stop: nat, k: int)
    requires rep != "" && i <= stop <= |s|
    requires Find(s, rep, i) == Some(stop) || (Find(s, rep, i) == None && stop == |s|)
    ensures !OccursAt(s[i..stop], rep, k)
  {
    if OccursAt(s[i..stop], rep, k) {
      SliceOfSlice(s, i, stop, k, |rep|);
      FindIsLeftmost(s, rep, i, i + k);
    }
  }

  /** No piece contains the searched text: no occurrence is missed. */
  lemma {:induction false} PiecesAreClean(s: string, rep: string, i: nat, j: nat, k: int)
    requires rep != "" && i <= |s| && j < |Pieces(s, rep, i)|
    ensures !OccursAt(Pieces(s, rep, i)[j], rep, k)
    decreases |s| - i
  {
    var f := Find(s, rep, i);
    if f.None? {
      assert s[i..] == s[i..|s|];
      FirstPieceIsClean(s, rep, i, |s|, k);
    } else if j == 0 {
      FirstPieceIsClean(s, rep, i, f.value, k);
    } else {
      PiecesAreClean(s, rep, f.value + |rep|, j - 1, k);
    }
  }

  /** An occurrence inside a window of `s` is one of `s`, and the other way round. */
  lemma {:induction false} OccursInSlice(s: string, rep: string, i: nat, stop: nat, k: int)
    requires i <= stop <= |s| && 0 <= k && k + |rep| <= stop - i
    ensures OccursAt(s[i..stop], rep, k) <==> OccursAt(s, rep, i + k)
  {
    SliceOfSlice(s, i, stop, k, |rep|);
  }

  /** The searched text does not begin inside a piece that it follows. */
  ghost predicate ComesFirst(piece: string, rep: string) {
    forall k | 0 <= k < |piece| :: !OccursAt(piece + rep, rep, k)
  }

  ghost predicate Clean(piece: string, rep: string) {
    forall k :: !OccursAt(piece, rep, k)
  }

  /** Every piece but the last runs up to the first occurrence after it starts; the last contains
      none. */
  ghost predicate Leftmost(pieces: seq<string>, rep: string) {
    && pieces != []
    && (forall j | 0 <= j < |pieces| - 1 :: ComesFirst(pieces[j], rep))
    && Clean(pieces[|pieces| - 1], rep)
  }

  lemma {:induction false} FirstPieceComesFirst(s: string, rep: string, i: nat)
    requires rep != "" && i <= |s| && Find(s, rep, i).Some?
    ensures ComesFirst(s[i..Find(s, rep, i).value], rep)
  {
    var stop := Find(s, rep, i).value;
    var window := s[i..stop + |rep|];
    assert s[i..stop] + rep == window;
    forall k | 0 <= k < stop - i
      ensures !OccursAt(window, rep, k)
    {
      if OccursAt(window, rep, k) {
        OccursInSlice(s, rep, i, stop + |rep|, k);
        FindIsLeftmost(s, rep, i, i + k);
      }
    }
  }

  /** The pieces break at the leftmost occurrences. */
  lemma {:induction false} PiecesAreLeftmost(s: string, rep: string, i: nat)
    requires rep != "" && i <= |s|
    ensures Leftmost(Pieces(s, rep, i), rep)
    decreases |s| - i
  {
    hide Find, ComesFirst;
    var f := Find(s, rep, i);
    if f.None? {
      var piece := s[i..];
      forall k ensures !OccursAt(piece, rep, k) {
        PiecesAreClean(s, rep, i, 0, k);
      }
    } else {
      FirstPieceComesFirst(s, rep, i);
      PiecesAreLeftmost(s, rep, f.value + |rep|);
    }
  }

  lemma {:induction false} BreakAt(s: string, rep: string, i: nat, piece: string, rest: string)
    requires rep != "" && i <= |s| && s[i..] == piece + rep + rest && ComesFirst(piece, rep)
    ensures Find(s, rep, i) == Some(i + |piece|)
    ensures s[i..i + |piece|] == piece && i + |piece| + |rep| <= |s| && s[i + |piece| + |rep|..] == rest
  {
    var stop := i + |piece|;
    Parts(s, i, piece, rep, rest);
    FindIsLeftmost(s, rep, i, stop);
    var at := Find(s, rep, i).value;
    if at < stop {
      assert s[i..stop + |rep|] == piece + rep;
      OccursInSlice(s, rep, i, stop + |rep|, at - i);
      assert false;
    }
  }

  lemma {:induction false} Parts(s: string, i: nat, piece: string, rep: string, rest: string)
    requires i <= |s| && s[i..] == piece + rep + rest
    ensures i + |piece| + |rep| + |rest| == |s|
    ensures s[i..i + |piece|] == piece && s[i + |piece|..i + |piece| + |rep|] == rep && s[i + |piece| + |rep|..] == rest
    ensures s[i..i + |piece| + |rep|] == piece + rep
  {
    var t := s[i..];
    assert t[..|piece|] == piece && t[|piece|..|piece| + |rep|] == rep && t[|piece| + |rep|..] == rest;
    assert t[..|piece| + |rep|] == piece + rep;
  }

  /** They are the only pieces that spell the text and break at the leftmost occurrences, so the
      two properties say what is replaced. */
  lemma {:induction false} PiecesAreUnique(s: string, rep: string, i: nat, pieces: seq<string>)
    requires rep != "" && i <= |s| && Leftmost(pieces, rep) && Join(pieces, rep) == s[i..]
    ensures pieces == Pieces(s, rep, i)
    decreases |pieces|
  {
    hide ComesFirst, Find;
    if |pieces| == 1 {
      var f := Find(s, rep, i);
      assert pieces[0] == s[i..] == s[i..|s|];
      if f.Some? {
        OccursInSlice(s, rep, i, |s|, f.value - i);
        assert false;
      }
      assert pieces == [s[i..]];
    } else {
      var rest := pieces[1..];
      BreakAt(s, rep, i, pieces[0], Join(rest, rep));
      PiecesAreUnique(s, rep, i + |pieces[0]| + |rep|, rest);
    }
  }

  /** Replacing text by itself, or text that does not occur, changes nothing. */
  lemma {:induction false} Identity(s: string, rep: string, sub: string)
    requires rep != ""
    ensures Replaced(s, rep, rep, 0) == s
    ensures Find(s, rep, 0).None? ==> Replaced(s, rep, sub, 0) == s
  {
    PiecesSpell(s, rep, 0);
    Unfold(s, rep, sub, 0);
    assert s[0..] == s;
  }

  lemma LengthStep(length: int, front: int, subLength: int, repLength: int, count: int, rest: int)
    requires rest == (length - front - repLength) + (subLength - repLength) * count
    ensures front + subLength + rest == length + (subLength - repLength) * (1 + count)
  {
  }

  /** The length the allocation relies on. */
  lemma {:induction false} ReplacedLength(s: string, rep: string, sub: string, i: nat)
    requires rep != "" && i <= |s|
    ensures |Replaced(s, rep, sub, i)| == |s| - i + (|sub| - |rep|) * Count(s, rep, i)
    decreases |s| - i
  {
    hide Replaced, Count, Find;
    Unfold(s, rep, sub, i);
    var f := Find(s, rep, i);
    if f.None? {
    } else {
      var next := f.value + |rep|;
      ReplacedLength(s, rep, sub, next);
      LengthStep(|s| - i, f.value - i, |sub|, |rep|, Count(s, rep, next), |Replaced(s, rep, sub, next)|);
    }
  }

  // ----- the two passes ---------------------------------------------------------------------

  /** The library's `strstr`, on the tail of `s` from `i`. */
  method StrStr(s: string, rep: string, i: nat) returns (r: Option<nat>)
    requires i <= |s|
    ensures r == Find(s, rep, i)
  {
    var k := i;
    while k <= |s|
      invariant i <= k <= |s| + 1
      invariant if k <= |s| then Find(s, rep, i) == Find(s, rep, k) else Find(s, rep, i) == None
    {
      if k + |rep| <= |s| && s[k..k + |rep|] == rep {
        return Some(k);
      }
      k := k + 1;
    }
    return None;
  }

  lemma {:induction false} CountStep(s: string, rep: string, i: nat)
    requires rep != "" && i <= |s|
    ensures Find(s, rep, i).None? ==> Count(s, rep, i) == 0
    ensures Find(s, rep, i).Some? ==> Count(s, rep, i) == 1 + Count(s, rep, Find(s, rep, i).value + |rep|)
  {
    Unfold(s, rep, "", i);
  }

  lemma FindHere(s: string, rep: string, i: nat)
    requires i <= |s| && OccursAt(s, rep, i)
    ensures Find(s, rep, i) == Some(i)
  {
  }

  lemma {:induction false} CountFromFirst(s: string, rep: string, first: nat)
    requires rep != "" && Find(s, rep, 0) == Some(first)
    ensures Count(s, rep, first) == Count(s, rep, 0)
  {
    hide Find, OccursAt, Count;
    FindHere(s, rep, first);
    CountStep(s, rep, 0);
    CountStep(s, rep, first);
  }

  /** The counting pass. It starts at the first occurrence, which it finds once more. */
  method CountOccurrences(orig: string, rep: string, first: nat) returns (count: nat)
    requires rep != "" && Find(orig, rep, 0) == Some(first)
    ensures count == Count(orig, rep, 0)
  {
    var ins: nat := first;
    count := 0;
    hide Count, Find;
    CountFromFirst(orig, rep, first);
    while true
      invariant ins <= |orig| && count + Count(orig, rep, ins) == Count(orig, rep, 0)
      decreases |orig| - ins
    {
      var tmp := StrStr(orig, rep, ins);
      CountStep(orig, rep, ins);
      if tmp.None? {
        break;
      }
      ins := tmp.value + |rep|;
      count := count + 1;
    }
  }

  /** `str_replace`. The result is a buffer of exactly the size it needs. */
  method Replace(orig: Option<CString>, rep: Option<CString>, with: Option<CString>) returns (result: array?<char>)
    ensures result == null <==> orig.None? || rep.None? || rep.value == "" || Find(orig.value, rep.value, 0).None?
    ensures result != null ==>
              var text := Replaced(orig.value, rep.value, if with.Some? then with.value else "", 0);
              fresh(result) && result.Length == |text| + 1 && result[..|text|] == text && result[|text|] == '\0'
  {
    if orig.None? {
      return null;
    }
    if rep.None? || |rep.value| == 0 {
      return null;
    }
    var s, r := orig.value, rep.value;
    var ins := StrStr(s, r, 0);
    if ins.None? {
      return null;
    }
    var sub: string := if with.None? then "" else with.value;
    var count := CountOccurrences(s, r, ins.value);
    ReplacedLength(s, r, sub, 0);
    result := new char[|s| + (|sub| - |r|) * count + 1];
    Fill(result, s, r, sub, count);
  }

  /** Where the filling pass stands: `left` occurrences remain from `orig` on, and `done` is written. */
  ghost predicate Progress(s: string, rep: string, sub: string, orig: int, left: int, done: string) {
    && rep != "" && 0 <= orig <= |s| && left == Count(s, rep, orig)
    && done + Replaced(s, rep, sub, orig) == Replaced(s, rep, sub, 0)
  }

  /** The filling pass: copy the text in front of each occurrence, then the replacement. */
  method Fill(result: array<char>, s: string, rep: string, sub: string, count: nat)
    requires rep != "" && count == Count(s, rep, 0) && result.Length == |Replaced(s, rep, sub, 0)| + 1
    modifies result
    ensures var text := Replaced(s, rep, sub, 0); result[..|text|] == text && result[|text|] == '\0'
  {
    ghost var done := "";
    var orig: nat, tmp: nat, left: nat := 0, 0, count;
    FirstPiece(s, rep, sub);
    hide Progress, Replaced, Count, Find, OccursAt;
    while left > 0
      invariant orig <= |s| && Progress(s, rep, sub, orig, left, done)
      invariant tmp < result.Length && result[..tmp] == done
    {
      NextPiece(s, rep, sub, orig, left, done);
      left := left - 1;
      var ins := StrStr(s, rep, orig);
      tmp := CopyPiece(result, tmp, s, orig, ins.value, sub);
      done := done + s[orig..ins.value] + sub;
      orig := ins.value + |rep|;
    }
    LastPiece(s, rep, sub, orig, done);
    CopyTail(result, tmp, s, orig);
  }

  lemma {:induction false} FirstPiece(s: string, rep: string, sub: string)
    requires rep != ""
    ensures Progress(s, rep, sub, 0, Count(s, rep, 0), "")
  {
    hide Replaced, Count;
    assert "" + Replaced(s, rep, sub, 0) == Replaced(s, rep, sub, 0);
  }

  lemma {:induction false} NextPiece(s: string, rep: string, sub: string, orig: nat, left: nat, done: string)
    requires Progress(s, rep, sub, orig, left, done) && left > 0
    ensures Find(s, rep, orig).Some?
    ensures var ins := Find(s, rep, orig).value;
            var longer := done + s[orig..ins] + sub;
            && Progress(s, rep, sub, ins + |rep|, left - 1, longer)
            && |longer| == |done| + (ins - orig) + |sub| <= |Replaced(s, rep, sub, 0)|
  {
    hide Replaced, Count, Find;
    Unfold(s, rep, sub, orig);
    var ins := Find(s, rep, orig).value;
    Regroup(done, s[orig..ins], sub, Replaced(s, rep, sub, ins + |rep|));
  }

  lemma {:induction false} LastPiece(s: string, rep: string, sub: string, orig: nat, done: string)
    requires Progress(s, rep, sub, orig, 0, done)
    ensures done + s[orig..|s|] == Replaced(s, rep, sub, 0)
  {
    hide Replaced, Count, Find;
    Unfold(s, rep, sub, orig);
  }

  lemma Regroup(a: string, b: string, c: string, d: string)
    ensures a + (b + c + d) == (a + b + c) + d
  {
  }

  /** The final `strcpy` of the remainder, with its terminator. */
  method CopyTail(result: array<char>, tmp: nat, s: string, orig: nat)
    requires orig <= |s| && tmp + (|s| - orig) + 1 == result.Length
    modifies result
    ensures result[..result.Length - 1] == old(result[..tmp]) + s[orig..|s|] && result[result.Length - 1] == '\0'
  {
    var end := CopyPiece(result, tmp, s, orig, |s|, "");
    result[end] := '\0';
  }

  /** The `strncpy` of the text in front, and the `strcpy` of the replacement. */
  method CopyPiece(result: array<char>, tmp: nat, s: string, orig: nat, ins: nat, sub: string) returns (end: nat)
    requires orig <= ins <= |s| && tmp + (ins - orig) + |sub| <= result.Length
    modifies result
    ensures end == tmp + (ins - orig) + |sub|
    ensures result[..end] == old(result[..tmp]) + s[orig..ins] + sub
  {
    var lenFront := ins - orig;
    forall i | 0 <= i < lenFront {
      result[tmp + i] := s[orig + i];
    }
    forall i | 0 <= i < |sub| {
      result[tmp + lenFront + i] := sub[i];
    }
    end := tmp + lenFront + |sub|;
  }
}
