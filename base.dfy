/**
 * Shared vocabulary of the model: optional values (the source's `null`),
 * machine integer ranges and a few sequence helpers used by several modules.
 */
module Base {

  /** A reference that may be `null` in the source. */
  datatype Option<T> = None | Some(value: T)

  /** A value, or the exception the source throws (an index or a search start out of range). */
  datatype Res<T> = Ok(value: T) | Throws

  /** An 8-bit unsigned value (`byte`). */
  type byte = x: int | 0 <= x < 0x100

  /** A 16-bit unsigned value (`ushort`, the type of affix flags). */
  type u16 = x: int | 0 <= x < 0x1_0000

  /** A 32-bit unsigned value (`uint`, the type of hash codes). */
  type u32 = x: int | 0 <= x < 0x1_0000_0000

  const INT_MAX: int := 0x7fff_ffff
  const INT_MIN: int := -0x8000_0000

  /** The reversal of a sequence. */
  function Reverse<T>(s: seq<T>): (r: seq<T>)
    ensures |r| == |s|
    ensures forall k :: 0 <= k < |s| ==> r[k] == s[|s| - 1 - k]
  {
    if s == [] then [] else Reverse(s[1..]) + [s[0]]
  }

  lemma {:induction false} ReverseReverse<T>(s: seq<T>)
    ensures Reverse(Reverse(s)) == s
  {
    var r := Reverse(Reverse(s));
    assert |r| == |s|;
    forall k | 0 <= k < |s| ensures r[k] == s[k] {
      assert Reverse(s)[|s| - 1 - k] == s[k];
    }
  }

  /** `p` is a prefix of `s`. */
  predicate IsPrefix<T(==)>(p: seq<T>, s: seq<T>)
  {
    |p| <= |s| && s[..|p|] == p
  }

  /** `p` is a suffix of `s`. */
  predicate IsSuffix<T(==)>(p: seq<T>, s: seq<T>)
  {
    |p| <= |s| && s[|s| - |p|..] == p
  }

  /** `v` occurs in `s` at position `i`. */
  predicate OccursAt<T(==)>(v: seq<T>, s: seq<T>, i: int)
  {
    0 <= i && i + |v| <= |s| && s[i..i + |v|] == v
  }

  /** The first position at or after `from` where `v` occurs in `s`, or -1. */
  function FirstOccurrence<T(==)>(v: seq<T>, s: seq<T>, from: nat): (r: int)
    ensures r == -1 || (from <= r && OccursAt(v, s, r))
    ensures r == -1 ==> forall i :: from <= i ==> !OccursAt(v, s, i)
    ensures r != -1 ==> forall i :: from <= i < r ==> !OccursAt(v, s, i)
    decreases |s| - from
  {
    if from + |v| > |s| then -1
    else if s[from..from + |v|] == v then from
    else FirstOccurrence(v, s, from + 1)
  }

  /** The index of the first element of `s` satisfying `p`, or -1. */
  function FirstIndex<T>(p: T -> bool, s: seq<T>): (r: int)
    ensures -1 <= r < |s|
    ensures r >= 0 ==> p(s[r])
    ensures forall i :: 0 <= i < |s| && (r < 0 || i < r) ==> !p(s[i])
  {
    if s == [] then -1
    else if p(s[0]) then 0
    else var t := FirstIndex(p, s[1..]); if t < 0 then -1 else t + 1
  }

  /** The first element of `s` satisfying `p`, if any. */
  function FirstWhere<T>(p: T -> bool, s: seq<T>): (r: Option<T>)
    ensures r.Some? ==> r.value in s && p(r.value)
    ensures r.None? ==> forall i :: 0 <= i < |s| ==> !p(s[i])
  {
    var i := FirstIndex(p, s);
    if i < 0 then None else Some(s[i])
  }

  /** An element satisfying `p` with none before it is the first one. */
  lemma FirstWhereAt<T>(p: T -> bool, s: seq<T>, i: nat)
    requires i < |s| && p(s[i])
    requires forall j :: 0 <= j < i ==> !p(s[j])
    ensures FirstWhere(p, s) == Some(s[i])
  {
  }

  lemma FirstWhereNone<T>(p: T -> bool, s: seq<T>)
    requires forall j :: 0 <= j < |s| ==> !p(s[j])
    ensures FirstWhere(p, s) == None
  {
  }

  /** The elements of `s` satisfying `p`, in order. */
  function Filter<T>(p: T -> bool, s: seq<T>): (r: seq<T>)
    ensures |r| <= |s|
    ensures forall i :: 0 <= i < |r| ==> r[i] in s && p(r[i])
    ensures forall i :: 0 <= i < |s| && p(s[i]) ==> s[i] in r
  {
    if s == [] then [] else (if p(s[0]) then [s[0]] else []) + Filter(p, s[1..])
  }

  lemma FilterAppend<T>(p: T -> bool, a: seq<T>, b: seq<T>)
    ensures Filter(p, a + b) == Filter(p, a) + Filter(p, b)
  {
    if a == [] {
      assert a + b == b;
    } else {
      assert (a + b)[1..] == a[1..] + b;
      FilterAppend(p, a[1..], b);
    }
  }

  /** Bitwise exclusive or of two naturals. */
  function Xor(a: nat, b: nat): nat
    decreases a + b
  {
    if a == 0 then b else if b == 0 then a else 2 * Xor(a / 2, b / 2) + (a + b) % 2
  }

  function Pow2(k: nat): nat
  {
    if k == 0 then 1 else 2 * Pow2(k - 1)
  }

  lemma {:induction false} XorSelf(a: nat)
    ensures Xor(a, a) == 0
    decreases a
  {
    if a != 0 {
      XorSelf(a / 2);
    }
  }

  lemma {:induction false} XorZero(a: nat, b: nat)
    requires Xor(a, b) == 0
    ensures a == b
    decreases a + b
  {
    if a != 0 && b != 0 {
      XorZero(a / 2, b / 2);
    }
  }

  /** Exclusive or with the same value twice gives the first value back. */
  lemma {:induction false} XorTwice(a: nat, b: nat)
    ensures Xor(Xor(a, b), b) == a
    decreases a + b
  {
    if a == 0 {
      XorSelf(b);
    } else if b != 0 {
      var c := Xor(a, b);
      if c == 0 {
        XorZero(a, b);
        XorSelf(b);
      } else {
        hide Xor;
        var h := Xor(a / 2, b / 2);
        XorStep(a, b);
        Halves(c, h, (a + b) % 2);
        XorTwice(a / 2, b / 2);
        XorStep(c, b);
        Parity(a, b, c);
      }
    }
  }

  lemma XorStep(a: nat, b: nat)
    requires a != 0 && b != 0
    ensures Xor(a, b) == 2 * Xor(a / 2, b / 2) + (a + b) % 2
  {
  }

  lemma Parity(a: nat, b: nat, c: nat)
    requires c % 2 == (a + b) % 2
    ensures (c + b) % 2 == a % 2
  {
  }

  lemma Halves(x: nat, h: nat, r: nat)
    requires r < 2 && x == 2 * h + r
    ensures x / 2 == h && x % 2 == r
  {
  }

  /** Exclusive or stays within k bits. */
  lemma {:induction false} XorBelow(a: nat, b: nat, k: nat)
    requires a < Pow2(k) && b < Pow2(k)
    ensures Xor(a, b) < Pow2(k)
    decreases a + b
  {
    if a != 0 && b != 0 {
      XorBelow(a / 2, b / 2, k - 1);
    }
  }
}
