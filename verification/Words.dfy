/** Machine words of 64 bits and word arrays.  A word is the set of the positions of its
    one bits, so the exclusive or of words is addition of polynomials, and an
    array of words denotes the polynomial with the concatenated bits. */
module Words {
  import opened Polynomials


  type Word = w: Poly | forall i :: i in w ==> i < 64 witness {}

  function Xor(a: Word, b: Word): Word {
    Add(a, b)
  }

  /** a << k. */
  function Shl(a: Word, k: nat): (r: Word)
    ensures forall i {:trigger i in r} :: i in r <==> k <= i < 64 && i - k in a
  {
    Low(Shift(a, k), 64)
  }

  /** a >> k. */
  function Shr(a: Word, k: nat): (r: Word)
    ensures forall i: nat {:trigger i in r} :: i in r <==> i + k in a
  {
    hide High;
    ShrBound(a, k);
    High(a, k)
  }

  lemma ShrBound(a: Word, k: nat)
    ensures forall i :: i in High(a, k) ==> i < 64
  {
    hide High;
    forall i | i in High(a, k)
      ensures i < 64
    {
      assert i + k in a;
    }
  }

  /** a | b. */
  function Or(a: Word, b: Word): Word {
    a + b
  }

  /** a & ((1 << k) - 1). */
  function Mask(a: Word, k: nat): (r: Word)
    ensures forall i {:trigger i in r} :: i in r <==> i in a && i < k
  {
    Low(a, k)
  }

  /** The polynomial whose coefficients are the bits of s, least significant word first. */
  function Val(s: seq<Word>): (r: Poly) {
    set i: nat | i < 64 * |s| && i % 64 in s[i / 64]
  }

  lemma ValMember(s: seq<Word>, i: nat)
    ensures i in Val(s) <==> i < 64 * |s| && i % 64 in s[i / 64]
  {
  }

  lemma ValBit(s: seq<Word>, k: nat, b: nat)
    requires k < |s| && b < 64
    ensures 64 * k + b in Val(s) <==> b in s[k]
  {
    assert (64 * k + b) / 64 == k && (64 * k + b) % 64 == b;
  }

  lemma WordBound(w: Word, b: nat)
    requires 64 <= b
    ensures b !in w
  {
  }

  lemma ValBound(s: seq<Word>, i: nat)
    requires 64 * |s| <= i
    ensures i !in Val(s)
  {
  }

  lemma ValConcat(s: seq<Word>, t: seq<Word>)
    ensures Val(s + t) == Add(Val(s), Shift(Val(t), 64 * |s|))
  {
    hide Val, Shift, Add;
    forall i: nat
      ensures i in Val(s + t) <==> i in Add(Val(s), Shift(Val(t), 64 * |s|))
    {
      ValMember(s + t, i);
      ValMember(s, i);
      if 64 * |s| <= i {
        var k := i - 64 * |s|;
        ValMember(t, k);
        assert k / 64 == i / 64 - |s| && k % 64 == i % 64;
        assert i in Shift(Val(t), 64 * |s|) <==> k in Val(t);
      }
    }
  }

  /** Words of the same number with the same value are the same. */
  lemma ValInjective(s: seq<Word>, t: seq<Word>)
    requires |s| == |t| && Val(s) == Val(t)
    ensures s == t
  {
    hide Val;
    forall k | 0 <= k < |s|
      ensures s[k] == t[k]
    {
      forall b: nat
        ensures b in s[k] <==> b in t[k]
      {
        if b < 64 {
          ValBit(s, k, b);
          ValBit(t, k, b);
        }
      }
    }
  }

  function WordAt(a: Poly, k: nat): (w: Word)
    ensures forall b: nat {:trigger b in w} :: b in w <==> b < 64 && 64 * k + b in a
  {
    Low(High(a, 64 * k), 64)
  }

  /** Adding a word at position k adds its multiple by x^(64 k). */
  lemma ValXorWord(s: seq<Word>, k: nat, w: Word)
    requires k < |s|
    ensures Val(s[k := Xor(s[k], w)]) == Add(Val(s), Shift(w, 64 * k))
  {
    hide Val, Shift, Add;
    var t := s[k := Xor(s[k], w)];
    forall i: nat
      ensures i in Val(t) <==> i in Add(Val(s), Shift(w, 64 * k))
    {
      ValMember(s, i);
      ValMember(t, i);
      if 64 * k <= i {
        if i < 64 * k + 64 {
          assert i / 64 == k && i % 64 == i - 64 * k;
        } else {
          WordBound(w, i - 64 * k);
        }
      }
    }
  }

  /** A word moved by r positions straddles two words. */
  lemma ShiftStraddles(w: Word, r: nat)
    requires r < 64
    ensures Shift(w, r) == Add(Shl(w, r), Shift(Shr(w, 64 - r), 64))
  {
    hide Shift, Add, Shl, Shr;
    var both := Add(Shl(w, r), Shift(Shr(w, 64 - r), 64));
    forall i: nat
      ensures i in Shift(w, r) <==> i in both
    {
      if i < 64 {
      } else if i < 64 + r {
        assert i in Shift(Shr(w, 64 - r), 64) <==> i - 64 in Shr(w, 64 - r);
      } else {
        WordBound(w, i - r);
        WordBound(w, i - 64 + (64 - r));
      }
    }
  }

  lemma ShiftStraddlesAt(w: Word, k: nat, r: nat)
    requires r < 64
    ensures Shift(w, 64 * k + r) == Add(Shift(Shl(w, r), 64 * k), Shift(Shr(w, 64 - r), 64 * (k + 1)))
  {
    hide Shift, Add, Shl, Shr;
    var lo: Poly, hi: Poly, e := Shl(w, r), Shr(w, 64 - r), 64 * k;
    ShiftStraddles(w, r);
    ShiftShift(w, r, e);
    ShiftShift(hi, 64, e);
    ShiftAdd(lo, Shift(hi, 64), e);
  }

  function GetBit(c: seq<Word>, i: nat): bool
    requires i / 64 < |c|
  {
    i % 64 in c[i / 64]
  }

  method XorBit(c: array<Word>, i: nat, x: bool)
    requires i / 64 < c.Length
    modifies c
    ensures c[..] == old(c[..])[i / 64 := Xor(old(c[i / 64]), if x then {i % 64} else {})]
  {
    c[i / 64] := Xor(c[i / 64], if x then {i % 64} else {});
  }
}
