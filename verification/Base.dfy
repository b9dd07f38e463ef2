/** Option and Result, and the model of Go strings shared by every other module. */
module Base {
  datatype Option<+T> = None | Some(value: T)

  datatype Result<+T, +E> = Ok(value: T) | Err(error: E)

  /** Some element of a nonempty set, as the database's arbitrary visiting order picks it. */
  method Pick<T(==)>(s: set<T>) returns (x: T)
    requires s != {}
    ensures x in s
  {
    x :| x in s;
  }

  lemma SubsetSize<T>(a: set<T>, b: set<T>)
    requires a <= b
    ensures |a| <= |b|
  {
    assert b == a + (b - a);
  }

  method Greatest(ids: set<int>) returns (greatest: int)
    requires ids != {}
    ensures greatest in ids && forall id :: id in ids ==> id <= greatest
  {
    greatest := Pick(ids);
    var rest := ids - {greatest};
    while rest != {}
      invariant greatest in ids && rest <= ids && forall id :: id in ids ==> id in rest || id <= greatest
      decreases |rest|
    {
      var id := Pick(rest);
      if id > greatest { greatest := id; }
      rest := rest - {id};
    }
  }
}

/** Permutations of sequences, one element at a time. */
module Permutations {
  lemma LastOut<T>(a: seq<T>)
    requires a != []
    ensures multiset(a) == multiset(a[..|a| - 1]) + multiset{a[|a| - 1]}
  {
    assert a == a[..|a| - 1] + [a[|a| - 1]];
  }

  lemma OneOut<T>(b: seq<T>, k: nat)
    requires k < |b|
    ensures multiset(b) == multiset(b[..k] + b[k + 1..]) + multiset{b[k]}
  {
    assert b == b[..k] + [b[k]] + b[k + 1..];
  }

  /** The last element of one arrangement occurs in the other, and the rests are permutations. */
  lemma MatchLast<T>(a: seq<T>, b: seq<T>) returns (k: nat)
    requires multiset(a) == multiset(b) && a != []
    ensures |a| == |b| && k < |b| && b[k] == a[|a| - 1]
    ensures multiset(a[..|a| - 1]) == multiset(b[..k] + b[k + 1..])
  {
    assert |a| == |multiset(a)| == |multiset(b)| == |b|;
    assert a[|a| - 1] in multiset(b);
    k :| 0 <= k < |b| && b[k] == a[|a| - 1];
    LastOut(a);
    OneOut(b, k);
    assert multiset(a[..|a| - 1]) == multiset(a) - multiset{a[|a| - 1]};
    assert multiset(b[..k] + b[k + 1..]) == multiset(b) - multiset{b[k]};
  }
}

/** Division and multiplication facts for windows and limits. */
module Arithmetic {
  lemma DivMonotone(a: int, b: int, d: int)
    requires a <= b && d > 0
    ensures a / d <= b / d
  {
    if a / d > b / d {
      MulMonotone(d, b / d + 1, a / d);
    }
  }

  lemma MulMonotone(k: int, a: int, b: int)
    requires k >= 0 && a <= b
    ensures k * a <= k * b
  {
  }

  lemma DivShift(a: int, d: int)
    requires d > 0
    ensures (a + d) / d == a / d + 1
  {
    var q, r := a / d, a % d;
    assert a + d == d * (q + 1) + r;
    QuotientIsUnique(a + d, d, q + 1, r);
  }

  lemma QuotientIsUnique(a: int, d: int, q: int, r: int)
    requires d > 0 && 0 <= r < d && a == d * q + r
    ensures a / d == q
  {
    var p, s := a / d, a % d;
    assert a == d * p + s;
    if p < q { MulMonotone(d, p + 1, q); }
    if q < p { MulMonotone(d, q + 1, p); }
  }
}

/** A Go string is a byte sequence that `range` decodes piece by piece: each piece is
    either a Unicode scalar value or one byte that is not part of valid UTF-8 (which
    `range` reports as U+FFFD and `utf8.ValidString` rejects). */
module Texts {
  datatype Glyph = Rune(c: char) | BadByte

  type Text = seq<Glyph>

  newtype byte = x: int | 0 <= x < 256

  /** The 32-byte pseudonymous visitor key. */
  type VisitorHash = h: seq<byte> | |h| == 32 witness seq(32, _ => 0 as byte)

  function Str(s: string): Text {
    seq(|s|, i requires 0 <= i < |s| => Rune(s[i]))
  }

  /** Number of bytes UTF-8 needs for one piece. */
  function Width(g: Glyph): nat {
    match g
    case BadByte => 1
    case Rune(c) => if c as int < 0x80 then 1 else if c as int < 0x800 then 2 else if c as int < 0x10000 then 3 else 4
  }

  /** Go's `len` of a string. */
  function ByteLen(t: Text): nat {
    if t == [] then 0 else Width(t[0]) + ByteLen(t[1..])
  }

  /** Go's `utf8.ValidString`. */
  predicate ValidUtf8(t: Text) {
    forall i :: 0 <= i < |t| ==> t[i].Rune?
  }

  predicate Ascii(t: Text) {
    forall i :: 0 <= i < |t| ==> t[i].Rune? && t[i].c as int < 0x80
  }

  /** Go's `unicode.IsSpace`. */
  predicate IsSpace(g: Glyph) {
    g.Rune? &&
    var c := g.c as int;
    || 0x09 <= c <= 0x0D || c == 0x20 || c == 0x85 || c == 0xA0 || c == 0x1680
    || 0x2000 <= c <= 0x200A || c == 0x2028 || c == 0x2029 || c == 0x202F || c == 0x205F || c == 0x3000
  }

  /** These are the 25 code points of Unicode's White_Space property. */
  lemma SpaceMeaning(c: char)
    ensures IsSpace(Rune(c)) <==> c as int in {
      0x09, 0x0A, 0x0B, 0x0C, 0x0D, 0x20, 0x85, 0xA0, 0x1680, 0x2000, 0x2001, 0x2002, 0x2003, 0x2004, 0x2005,
      0x2006, 0x2007, 0x2008, 0x2009, 0x200A, 0x2028, 0x2029, 0x202F, 0x205F, 0x3000}
  {
  }

  function TrimLeft(t: Text, drop: Glyph -> bool): Text {
    if t != [] && drop(t[0]) then TrimLeft(t[1..], drop) else t
  }

  function TrimRight(t: Text, drop: Glyph -> bool): Text {
    if t != [] && drop(t[|t| - 1]) then TrimRight(t[..|t| - 1], drop) else t
  }

  function Trim(t: Text, drop: Glyph -> bool): Text {
    TrimRight(TrimLeft(t, drop), drop)
  }

  /** Go's `strings.TrimSpace`. */
  function TrimSpace(t: Text): Text {
    Trim(t, (g: Glyph) => IsSpace(g))
  }

  /** PostgreSQL's one-argument `btrim`, which removes U+0020 only. */
  function Btrim(t: Text): Text {
    Trim(t, (g: Glyph) => g == Rune(' '))
  }

  /** A string needs at least one byte for each piece, and exactly one when it is ASCII. */
  lemma {:induction false} ByteLenBounds(t: Text)
    ensures |t| <= ByteLen(t)
    ensures Ascii(t) ==> ByteLen(t) == |t|
  {
    if t != [] {
      ByteLenBounds(t[1..]);
    }
  }

  lemma {:induction false} TrimIsIdentity(t: Text, drop: Glyph -> bool)
    requires t != [] ==> !drop(t[0]) && !drop(t[|t| - 1])
    ensures Trim(t, drop) == t
  {
  }

  lemma {:induction false} TrimLeftStops(t: Text, drop: Glyph -> bool)
    ensures var r := TrimLeft(t, drop); r == [] || !drop(r[0])
  {
    if t != [] && drop(t[0]) {
      TrimLeftStops(t[1..], drop);
    }
  }

  lemma {:induction false} TrimRightStops(t: Text, drop: Glyph -> bool)
    ensures var r := TrimRight(t, drop); r <= t && (r == [] || !drop(r[|r| - 1]))
  {
    if t != [] && drop(t[|t| - 1]) {
      TrimRightStops(t[..|t| - 1], drop);
    }
  }

  /** Trimming leaves neither end with a dropped piece. */
  lemma TrimEnds(t: Text, drop: Glyph -> bool)
    ensures var r := Trim(t, drop); r == [] || (!drop(r[0]) && !drop(r[|r| - 1]))
  {
    TrimLeftStops(t, drop);
    TrimRightStops(TrimLeft(t, drop), drop);
  }

  /** `r` is `t` without some dropped pieces at its ends, and has none left at its own. */
  ghost predicate TrimmedTo(t: Text, drop: Glyph -> bool, r: Text, i: int, j: int) {
    && 0 <= i <= j <= |t| && r == t[i..j]
    && (forall k :: 0 <= k < |t| && !(i <= k < j) ==> drop(t[k]))
    && (r != [] ==> !drop(r[0]) && !drop(r[|r| - 1]))
  }

  lemma {:induction false} TrimLeftMeaning(t: Text, drop: Glyph -> bool) returns (i: nat)
    ensures i <= |t| && TrimLeft(t, drop) == t[i..] && forall k :: 0 <= k < i ==> drop(t[k])
  {
    if t != [] && drop(t[0]) {
      var rest := TrimLeftMeaning(t[1..], drop);
      i := rest + 1;
      assert t[1..][rest..] == t[i..];
      forall k | 0 <= k < i ensures drop(t[k]) {
        if k > 0 { assert t[k] == t[1..][k - 1]; }
      }
    } else {
      i := 0;
    }
  }

  lemma {:induction false} TrimRightMeaning(t: Text, drop: Glyph -> bool) returns (j: nat)
    ensures j <= |t| && TrimRight(t, drop) == t[..j] && forall k :: j <= k < |t| ==> drop(t[k])
  {
    if t != [] && drop(t[|t| - 1]) {
      j := TrimRightMeaning(t[..|t| - 1], drop);
      assert t[..|t| - 1][..j] == t[..j];
      forall k | j <= k < |t| ensures drop(t[k]) {
        if k < |t| - 1 { assert t[k] == t[..|t| - 1][k]; }
      }
    } else {
      j := |t|;
    }
  }

  /** Trimming removes exactly the dropped pieces at both ends. */
  lemma TrimMeaning(t: Text, drop: Glyph -> bool) returns (i: nat, j: nat)
    ensures TrimmedTo(t, drop, Trim(t, drop), i, j)
  {
    i := TrimLeftMeaning(t, drop);
    var left := TrimLeft(t, drop);
    var m := TrimRightMeaning(left, drop);
    j := i + m;
    assert left == t[i..] && |left| == |t| - i;
    assert forall k :: 0 <= k < |left| ==> left[k] == t[i + k];
    assert left[..m] == t[i..j];
    forall k | 0 <= k < |t| && !(i <= k < j) ensures drop(t[k]) {
      if k >= j { assert t[k] == left[k - i]; }
    }
    TrimEnds(t, drop);
  }

  /** Nothing else is such a result. */
  lemma TrimIsUnique(t: Text, drop: Glyph -> bool, r: Text, i: int, j: int)
    requires TrimmedTo(t, drop, r, i, j)
    ensures Trim(t, drop) == r
  {
    var i', j' := TrimMeaning(t, drop);
    var r' := Trim(t, drop);
    if r != [] { assert r[0] == t[i] && r[|r| - 1] == t[j - 1]; }
    if r' != [] { assert r'[0] == t[i'] && r'[|r'| - 1] == t[j' - 1]; }
  }

  /** Space trimming leaves exactly the texts alone that neither start nor end with U+0020. */
  lemma BtrimMeaning(t: Text)
    ensures Btrim(t) == t <==> t == [] || (t[0] != Rune(' ') && t[|t| - 1] != Rune(' '))
  {
    TrimEnds(t, (g: Glyph) => g == Rune(' '));
    if t != [] && t[0] != Rune(' ') && t[|t| - 1] != Rune(' ') {
      TrimIsIdentity(t, (g: Glyph) => g == Rune(' '));
    }
  }

  /** The UTF-8 encoding of one piece; `BadByte` stands for some single byte, shown as 0xFF. */
  function Encode(g: Glyph): seq<byte> {
    match g
    case BadByte => [0xFF]
    case Rune(c) =>
      var n := c as int;
      var a := n / 64;
      var b := a / 64;
      if n < 0x80 then [n as byte]
      else if n < 0x800 then [(0xC0 + a) as byte, (0x80 + n % 64) as byte]
      else if n < 0x10000 then [(0xE0 + b) as byte, (0x80 + a % 64) as byte, (0x80 + n % 64) as byte]
      else [(0xF0 + b / 64) as byte, (0x80 + b % 64) as byte, (0x80 + a % 64) as byte, (0x80 + n % 64) as byte]
  }

  function Bytes(t: Text): seq<byte> {
    if t == [] then [] else Encode(t[0]) + Bytes(t[1..])
  }

  /** The scalar value that continuation bytes spell after the bits of the first byte. */
  function Spelled(first: int, rest: seq<byte>): int {
    if rest == [] then first else 64 * Spelled(first, rest[..|rest| - 1]) + (rest[|rest| - 1] as int - 0x80)
  }

  /** An encoding has as many bytes as the piece is wide, and spells it. */
  lemma EncodingSpells(c: char)
    ensures var b, n := Encode(Rune(c)), c as int;
      |b| == Width(Rune(c)) &&
      Spelled(b[0] as int - (if n < 0x80 then 0 else if n < 0x800 then 0xC0 else if n < 0x10000 then 0xE0 else 0xF0), b[1..]) == n
  {
    var b, n := Encode(Rune(c)), c as int;
    var first := b[0] as int - (if n < 0x80 then 0 else if n < 0x800 then 0xC0 else if n < 0x10000 then 0xE0 else 0xF0);
    if |b| == 2 {
      SpelledOneMore(first, b[1..1], b[1]);
    } else if |b| == 3 {
      SpelledOneMore(first, b[1..1], b[1]);
      SpelledOneMore(first, b[1..2], b[2]);
    } else if |b| == 4 {
      SpelledOneMore(first, b[1..1], b[1]);
      SpelledOneMore(first, b[1..2], b[2]);
      SpelledOneMore(first, b[1..3], b[3]);
    }
    assert forall k :: 1 <= k < |b| ==> b[1..k] + [b[k]] == b[1..k + 1];
    assert b[1..|b|] == b[1..] && b[1..1] == [];
  }

  lemma {:induction false} SpelledOneMore(first: int, rest: seq<byte>, last: byte)
    ensures Spelled(first, rest + [last]) == 64 * Spelled(first, rest) + (last as int - 0x80)
  {
    assert (rest + [last])[..|rest|] == rest;
  }

  /** `len` of a string counts the bytes of its encoding. */
  lemma {:induction false} ByteLenCountsBytes(t: Text)
    ensures ByteLen(t) == |Bytes(t)|
  {
    if t != [] {
      ByteLenCountsBytes(t[1..]);
    }
  }
}
