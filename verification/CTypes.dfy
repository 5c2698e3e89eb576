/** The fragment of C that the modelled sources rely on: machine integers, C strings,
    truncating division, and the option type that stands for a nullable pointer. */
module CTypes {

  const INT_MAX := 0x7fff_ffff

  newtype Byte = x: int | 0 <= x < 256

  /** The four bytes of an IPv4 address. */
  type Ip = s: seq<Byte> | |s| == 4 witness [0, 0, 0, 0]

  /** `netadr_t`. Type zero is a bot, never the sender of a packet. */
  datatype NetAdr = NetAdr(typ: int, ip: Ip, ipx: seq<Byte>, port: int)

  /** The `CS_` constants of `client_t`, in their order. */
  datatype ClientState = FREE | ZOMBIE | CONNECTED | PRIMED | ACTIVE

  const NA_LOOPBACK := 2
  const NA_IP := 4
  const NA_IPX := 5

  predicate IsCString(s: string) {
    forall i | 0 <= i < |s| :: 0 < s[i] as int < 256
  }

  /** A C string without its terminator. */
  type CString = s: string | IsCString(s) witness ""

  /** Indexing a C string up to and including its terminator. */
  function CharAt(s: string, i: nat): char {
    if i < |s| then s[i] else '\0'
  }

  datatype Option<+T> = None | Some(value: T)

  /** C division truncates toward zero; Dafny's does not. */
  function TruncDiv(a: int, b: int): int
    requires b > 0
  {
    if a >= 0 then a / b else -((-a) / b)
  }

  /** The C remainder takes the sign of the dividend. */
  function TruncMod(a: int, b: int): int
    requires b > 0
  {
    if a >= 0 then a % b else -((-a) % b)
  }

  /** Conversion to signed char, with wrap-around. */
  function SignedChar(x: int): int {
    (x + 128) % 256 - 128
  }

  function Min(a: int, b: int): int {
    if a < b then a else b
  }

  function Max(a: int, b: int): int {
    if a < b then b else a
  }

  /** Bitwise exclusive or on naturals. */
  function BitXor(a: nat, b: nat): nat {
    if a == 0 && b == 0 then 0 else (a + b) % 2 + 2 * BitXor(a / 2, b / 2)
  }

  function Pow2(k: nat): nat {
    if k == 0 then 1 else 2 * Pow2(k - 1)
  }

  lemma {:induction false} BitXorZero(a: nat)
    ensures BitXor(a, 0) == a
  {
    if a == 0 {
    } else {
      BitXorZero(a / 2);
    }
  }

  lemma {:induction false} BitXorSymmetric(a: nat, b: nat)
    ensures BitXor(a, b) == BitXor(b, a)
  {
    if a == 0 && b == 0 {
    } else {
      BitXorSymmetric(a / 2, b / 2);
    }
  }

  lemma {:induction false} Pow2IsPositive(k: nat)
    ensures Pow2(k) > 0
  {
    if k == 0 {
    } else {
      Pow2IsPositive(k - 1);
    }
  }

  lemma {:induction false} LowBits(a: nat, k: nat)
    ensures Pow2(k) > 0 && Pow2(k + 1) == 2 * Pow2(k)
    ensures a % Pow2(k + 1) == a % 2 + 2 * ((a / 2) % Pow2(k))
  {
    Pow2IsPositive(k);
    var m, h := Pow2(k), a / 2;
    var q, r := h / m, h % m;
    assert a == q * (2 * m) + (a % 2 + 2 * r) by {
      assert h == q * m + r;
      assert q * (2 * m) == 2 * (q * m);
    }
    Remainder(a, 2 * m, q, a % 2 + 2 * r);
  }

  lemma {:induction false} Remainder(a: int, m: int, q: int, r: int)
    requires m > 0 && 0 <= r < m && a == q * m + r
    ensures a % m == r
  {
    var p, s := a / m, a % m;
    assert a == p * m + s;
    MulSub(p, q, m);
    MulSub(q, p, m);
    if p > q {
      MulMonotone(1, p - q, m);
    } else if p < q {
      MulMonotone(1, q - p, m);
    }
  }

  lemma {:induction false} BitXorUnfold(a: nat, b: nat)
    ensures BitXor(a, b) == (a + b) % 2 + 2 * BitXor(a / 2, b / 2)
  {
    if a == 0 && b == 0 {
      assert BitXor(0, 0) == 0;
    }
  }

  lemma Halves(n: nat, c: nat, h: nat)
    requires n == c + 2 * h && c < 2
    ensures n % 2 == c && n / 2 == h
  {
  }

  lemma Parity(a: nat, b: nat, x: nat, y: nat)
    requires x % 2 == a % 2 && y % 2 == b % 2
    ensures (x + y) % 2 == (a + b) % 2
  {
  }

  /** The low bits of an exclusive or are those of the low bits. */
  lemma {:induction false} BitXorMod(a: nat, b: nat, k: nat)
    ensures Pow2(k) > 0 && BitXor(a, b) % Pow2(k) == BitXor(a % Pow2(k), b % Pow2(k))
  {
    Pow2IsPositive(k);
    if k == 0 {
      assert BitXor(0, 0) == 0;
    } else {
      hide BitXor, Pow2;
      var m, x, y, r := Pow2(k - 1), a % Pow2(k), b % Pow2(k), BitXor(a, b);
      LowBits(a, k - 1);
      LowBits(b, k - 1);
      LowBits(r, k - 1);
      BitXorMod(a / 2, b / 2, k - 1);
      BitXorUnfold(a, b);
      BitXorUnfold(x, y);
      Halves(x, a % 2, (a / 2) % m);
      Halves(y, b % 2, (b / 2) % m);
      Halves(r, (a + b) % 2, BitXor(a / 2, b / 2));
      Parity(a, b, x, y);
    }
  }

  // Products are opaque to the solver unless they are pointed out to it.

  lemma MulStep(a: int, c: int)
    ensures (a + 1) * c == a * c + c
  {
  }

  lemma MulSame(a: int, b: int, c: int)
    requires a == b
    ensures a * c == b * c
  {
  }

  lemma MulMonotone(a: int, b: int, c: int)
    requires a <= b && c >= 0
    ensures a * c <= b * c
  {
  }

  lemma MulSub(a: int, b: int, c: int)
    ensures (a - b) * c == a * c - b * c
  {
  }
}
