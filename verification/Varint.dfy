/** The sign-and-magnitude variable-length integers of the feed (StockData/ResHandler.h). */
module Varint {
  import opened Framing

  const INT_MAX := 0x7fff_ffff

  /** All bytes of a code but the last carry the continuation bit. */
  predicate IsCode(s: seq<byte>) {
    |s| > 0 && (forall i | 0 <= i < |s| - 1 :: s[i] >= 0x80) && s[|s| - 1] < 0x80
  }

  /** A byte without its continuation bit, and without its sign bit as well. */
  function Low7(b: byte): nat { if b < 0x80 then b else b - 0x80 }
  function Low6(b: byte): nat { if Low7(b) < 0x40 then Low7(b) else Low7(b) - 0x40 }

  /** Seven-bit groups, the least significant first. */
  function Groups(s: seq<byte>): nat {
    if s == [] then 0 else Low7(s[0]) + 0x80 * Groups(s[1..])
  }

  /** The first byte carries six bits and, as 0x40, the sign. */
  function Magnitude(s: seq<byte>): nat
    requires |s| > 0
  {
    Low6(s[0]) + 0x40 * Groups(s[1..])
  }

  predicate Negative(s: seq<byte>)
    requires |s| > 0
  {
    Low7(s[0]) >= 0x40
  }

  /** The integer that a code stands for. */
  function Value(s: seq<byte>): int
    requires |s| > 0
  {
    if Negative(s) then -(Magnitude(s) as int) else Magnitude(s)
  }

  function EncodeGroups(q: nat): (s: seq<byte>)
    ensures IsCode(s) && Groups(s) == q && (q > 0 ==> s[|s| - 1] > 0)
  {
    if q < 0x80 then [q as byte]
    else
      var rest := EncodeGroups(q / 0x80);
      assert ([(q % 0x80 + 0x80) as byte] + rest)[1..] == rest;
      [(q % 0x80 + 0x80) as byte] + rest
  }

  /** The shortest code of `v`. */
  function Encode(v: int): seq<byte> {
    var a := if v < 0 then -v else v;
    var first := a % 0x40 + (if v < 0 then 0x40 else 0);
    if a < 0x40 then [first as byte] else [(first + 0x80) as byte] + EncodeGroups(a / 0x40)
  }

  /** No trailing zero group, and no negative zero. */
  predicate Canonical(s: seq<byte>)
    requires |s| > 0
  {
    if |s| == 1 then s[0] != 0x40 else s[|s| - 1] != 0
  }

  // ------------------------------------------------ codes and integers

  lemma NoGroups(s: seq<byte>)
    requires s == []
    ensures Groups(s) == 0
  {
  }

  /** Every integer has a code, and its value is that integer again. */
  lemma ValueOfEncode(v: int)
    ensures IsCode(Encode(v)) && Value(Encode(v)) == v && Canonical(Encode(v))
  {
    hide EncodeGroups, Groups;
    var a, s := if v < 0 then -v else v, Encode(v);
    if a >= 0x40 {
      assert s[1..] == EncodeGroups(a / 0x40);
    } else {
      NoGroups(s[1..]);
    }
  }

  lemma Divided(d: nat, g: nat)
    ensures d < 0x80 ==> (d + 0x80 * g) / 0x80 == g && (d + 0x80 * g) % 0x80 == d
    ensures d < 0x40 ==> (d + 0x40 * g) / 0x40 == g && (d + 0x40 * g) % 0x40 == d
  {
    hide *;
  }

  lemma EncodeGroupsStep(d: nat, g: nat)
    requires d < 0x80 && g > 0
    ensures EncodeGroups(d + 0x80 * g) == [(d + 0x80) as byte] + EncodeGroups(g)
  {
    var q := d + 0x80 * g;
    Divided(d, g);
  }

  lemma EncodeStep(v: int, low: nat, g: nat)
    requires low < 0x40 && g > 0 && (v == low + 0x40 * g || v == -(low + 0x40 * g))
    ensures Encode(v) == [(low + (if v < 0 then 0x40 else 0) + 0x80) as byte] + EncodeGroups(g)
  {
    hide EncodeGroups;
    var a := low + 0x40 * g;
    Divided(low, g);
  }

  lemma {:induction false} GroupsOfCode(s: seq<byte>)
    requires IsCode(s) && s[|s| - 1] != 0
    ensures Groups(s) > 0 && EncodeGroups(Groups(s)) == s
    decreases |s|
  {
    if |s| == 1 {
      NoGroups(s[1..]);
    } else {
      hide EncodeGroups;
      GroupsOfCode(s[1..]);
      EncodeGroupsStep(Low7(s[0]), Groups(s[1..]));
      assert s == [s[0]] + s[1..];
    }
  }

  lemma EncodeOfCanonical(s: seq<byte>)
    requires IsCode(s) && Canonical(s)
    ensures Encode(Value(s)) == s
  {
    if |s| == 1 {
      NoGroups(s[1..]);
    } else {
      hide EncodeGroups, Groups, Encode;
      GroupsOfCode(s[1..]);
      EncodeStep(Value(s), Low6(s[0]), Groups(s[1..]));
      assert s == [s[0]] + s[1..];
    }
  }

  /** Exactly the canonical codes are what an encoder would have written. */
  lemma EncodeOfValue(s: seq<byte>)
    requires IsCode(s)
    ensures Encode(Value(s)) == s <==> Canonical(s)
  {
    hide Encode, Value, Canonical;
    ValueOfEncode(Value(s));
    if Canonical(s) {
      EncodeOfCanonical(s);
    }
  }

  /** A code ends itself: one stream begins with at most one. */
  lemma CodesEndThemselves(a: seq<byte>, s: seq<byte>, b: seq<byte>, t: seq<byte>)
    requires IsCode(a) && IsCode(b) && a + s == b + t
    ensures a == b && s == t
  {
    var w := a + s;
    assert (forall i | 0 <= i < |a| - 1 :: w[i] >= 0x80) && w[|a| - 1] < 0x80;
    assert w == b + t;
    assert (forall i | 0 <= i < |b| - 1 :: w[i] >= 0x80) && w[|b| - 1] < 0x80;
    assert (a + s)[..|a|] == a && (b + t)[..|b|] == b;
    assert (a + s)[|a|..] == s && (b + t)[|b|..] == t;
  }

  /** For example: one byte, two bytes, and the sign in the first. */
  lemma KnownCodes()
    ensures Encode(0) == [0] && Encode(63) == [0x3f] && Encode(-1) == [0x41] && Encode(-63) == [0x7f]
    ensures Encode(64) == [0x80, 1] && Encode(-65) == [0xc1, 1] && Encode(8191) == [0xbf, 0x7f]
    ensures Encode(8192) == [0x80, 0x80, 1]
  {
    assert EncodeGroups(1) == [1] && EncodeGroups(127) == [0x7f] && EncodeGroups(128) == [0x80] + EncodeGroups(1);
  }

  // ------------------------------------------------ what the decoder accumulates

  /** The running number after the last byte, before the sign is applied: the sign bit is still in it. */
  function Raw(s: seq<byte>): nat
    requires |s| > 0
  {
    Low7(s[0]) + 0x40 * Groups(s[1..])
  }

  function Power(j: nat): (p: nat)
    ensures p > 0
  {
    if j == 0 then 1 else 0x80 * Power(j - 1)
  }

  /** The contribution of the byte with index i > 0. */
  function Share(d: nat, i: nat): nat { d * Power(i) }

  lemma {:induction false} GroupsAppend(s: seq<byte>, b: byte)
    ensures Groups(s + [b]) == Groups(s) + Share(Low7(b), |s|)
    decreases |s|
  {
    if s == [] {
      assert s + [b] == [b];
    } else {
      GroupsAppend(s[1..], b);
      assert (s + [b])[1..] == s[1..] + [b];
      var d := Low7(b);
      assert 0x80 * Share(d, |s| - 1) == Share(d, |s|);
    }
  }

  /** The sign of the raw number is applied by subtracting it from 0x40. */
  lemma ValueFromRaw(s: seq<byte>)
    requires |s| > 0
    ensures Value(s) == if Negative(s) then 0x40 - Raw(s) else Raw(s)
  {
  }

  // ------------------------------------------------ the decoder

  class InStream {
    /** The bytes not yet read. */
    var rest: seq<byte>

    method ReadChar() returns (b: byte)
      requires rest != []
      modifies this
      ensures b == old(rest)[0] && rest == old(rest)[1..]
    {
      b, rest := rest[0], rest[1..];
    }
  }

  /** The inner loop: `temp` times 0x80, j times.  `fits`: every product is an int. */
  method Shift(d: nat, j: nat) returns (temp: nat, ghost fits: bool)
    requires d < 0x80
    ensures temp == Share(d, j) && (fits <==> temp <= INT_MAX)
  {
    temp, fits := d, true;
    for k := 0 to j
      invariant temp == Share(d, k) && (fits <==> temp <= INT_MAX)
    {
      assert 0x80 * Share(d, k) == Share(d, k + 1);
      temp := temp * 0x80;
      fits := fits && temp <= INT_MAX;
    }
  }

  /** readLong: whatever follows, exactly the bytes of the code are consumed and its value is returned;
      and every number that the code computes on the way is a 32-bit int exactly if the raw number is. */
  method ReadLong(input: InStream, ghost code: seq<byte>, ghost tail: seq<byte>) returns (number: int, ghost fits: bool)
    requires IsCode(code) && input.rest == code + tail
    modifies input
    ensures number == Value(code) && input.rest == tail
    ensures fits <==> Raw(code) <= INT_MAX
    ensures fits ==> -INT_MAX - 1 <= number <= INT_MAX
  {
    hide Raw, Value;
    number, fits := 0, true;
    var aByte: int := input.ReadChar();
    var negative := (0x40 <= aByte < 0x80) || aByte >= 0xc0;
    var i := 0;
    while aByte >= 0x80
      invariant 0 <= i < |code| && aByte == code[i] as int && input.rest == code[i + 1..] + tail
      invariant number == if i == 0 then 0 else Raw(code[..i])
      invariant fits <==> number <= INT_MAX
      decreases |code| - i
    {
      if i > 0 {
        RawGrows(code, i);
        var temp, ok := Shift(aByte - 0x80, i - 1);
        fits := fits && ok && temp * 0x40 <= INT_MAX;
        number := number + temp * 0x40;
      } else {
        RawStarts(code);
        number := number + aByte - 0x80;
      }
      fits := fits && number <= INT_MAX;
      aByte := input.ReadChar();
      i := i + 1;
    }
    assert i == |code| - 1 && code[..i + 1] == code;
    if i > 0 {
      RawGrows(code, i);
      var temp, ok := Shift(aByte, i - 1);
      fits := fits && ok && temp * 0x40 <= INT_MAX;
      number := number + temp * 0x40;
    } else {
      RawStarts(code);
      number := number + aByte;
    }
    fits := fits && number <= INT_MAX;
    ValueFromRaw(code);
    assert number == Raw(code);
    if negative {
      number := 0x40 - number;
    }
  }

  lemma RawStarts(s: seq<byte>)
    requires |s| > 0
    ensures Raw(s[..1]) == Low7(s[0])
  {
    assert s[..1][1..] == [];
  }

  lemma RawGrows(s: seq<byte>, i: nat)
    requires 0 < i < |s|
    ensures Raw(s[..i + 1]) == Raw(s[..i]) + Share(Low7(s[i]), i - 1) * 0x40
  {
    GroupsAppend(s[1..i], s[i]);
    assert s[..i + 1][1..] == s[1..i] + [s[i]] && s[..i][1..] == s[1..i];
  }

  // ------------------------------------------------ which integers a 32-bit int can receive

  lemma {:induction false} GroupsBound(s: seq<byte>)
    ensures Groups(s) < Power(|s|)
    decreases |s|
  {
    if s != [] {
      GroupsBound(s[1..]);
    }
  }

  /** Codes of at most four bytes never overflow. */
  lemma ShortCodesFit(s: seq<byte>)
    requires 0 < |s| <= 4
    ensures Raw(s) <= INT_MAX
  {
    GroupsBound(s[1..]);
    assert Power(3) == 0x80 * (0x80 * (0x80 * Power(0)));
    PowerMonotone(|s| - 1, 3);
  }

  lemma {:induction false} PowerMonotone(i: nat, j: nat)
    requires i <= j
    ensures Power(i) <= Power(j)
  {
    if i < j {
      PowerMonotone(i, j - 1);
    }
  }

  /** A five-byte code can: its last byte counts 0x40 * 0x80 * 0x80 * 0x80. */
  lemma FiveBytesMayOverflow()
    ensures IsCode([0x80, 0x80, 0x80, 0x80, 0x10]) && Raw([0x80, 0x80, 0x80, 0x80, 0x10]) == INT_MAX + 1
  {
    var s: seq<byte> := [0x80, 0x80, 0x80, 0x80, 0x10];
    assert s[1..] == [0x80, 0x80, 0x80, 0x10] && s[1..][1..] == [0x80, 0x80, 0x10];
    assert s[1..][1..][1..] == [0x80, 0x10] && s[1..][1..][1..][1..] == [0x10];
    assert Groups([0x10]) == 0x10;
    assert Groups([0x80, 0x10]) == 0x80 * 0x10;
  }

  /** Which integers come back through 32-bit arithmetic: all but the 65 smallest. */
  lemma ReadableIntegers(v: int)
    ensures Raw(Encode(v)) <= INT_MAX <==> 0x40 - INT_MAX <= v <= INT_MAX
  {
    ValueOfEncode(v);
    ValueFromRaw(Encode(v));
    var s := Encode(v);
    if Negative(s) && v >= 0 {
      assert Magnitude(s) == 0;
    }
  }

  /** The round trip: what was encoded is what is read, one integer after the other. */
  method ReadAll(input: InStream, ghost vs: seq<int>, n: nat, ghost tail: seq<byte>) returns (r: seq<int>)
    requires |vs| == n && input.rest == EncodeAll(vs) + tail
    modifies input
    ensures r == vs && input.rest == tail
  {
    hide Encode, Value;
    r := [];
    for i := 0 to n
      invariant r == vs[..i] && input.rest == EncodeAll(vs[i..]) + tail
    {
      ghost var code, rest := Encode(vs[i]), EncodeAll(vs[i + 1..]) + tail;
      ValueOfEncode(vs[i]);
      assert vs[i..][1..] == vs[i + 1..];
      assert input.rest == code + rest;
      var v, _ := ReadLong(input, code, rest);
      r := r + [v];
    }
    assert EncodeAll(vs[n..]) == [];
  }

  function EncodeAll(vs: seq<int>): seq<byte> {
    if vs == [] then [] else Encode(vs[0]) + EncodeAll(vs[1..])
  }
}
