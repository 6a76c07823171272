/**
 * Character classes and case mapping (Utils.cs get_captype, StringHelper.cs
 * mkinitcap). The culture's TextInfo and the Unicode predicates of `char`
 * are outside the model: they are taken as given total functions.
 */
module Locale {

  /**
   * `char.IsUpper`, `char.IsLower` and the culture's `TextInfo.ToUpper` /
   * `TextInfo.ToLower`.
   */
  datatype Casing = Casing(isUpper: char -> bool, isLower: char -> bool,
                           toUpper: char -> char, toLower: char -> char)

  /** The capitalisation classes of a word. */
  datatype CapType = NOCAP | INITCAP | ALLCAP | HUHCAP | HUHINITCAP

  /** A character get_captype counts as lower case: ASCII a-z, or a lower-case letter with an upper-case form. */
  predicate LowerLike(ci: Casing, c: char)
  {
    ('a' <= c <= 'z') || (ci.isLower(c) && ci.toUpper(c) != c)
  }

  /** No upper-case character after the first. */
  predicate RestHasNoCaps(ci: Casing, w: seq<char>)
  {
    forall i :: 1 <= i < |w| ==> !ci.isUpper(w[i])
  }

  /** Some character after the first is lower case (and not upper case). */
  predicate RestHasLower(ci: Casing, w: seq<char>)
  {
    exists i :: 1 <= i < |w| && !ci.isUpper(w[i]) && LowerLike(ci, w[i])
  }

  /** The capitalisation class get_captype assigns, stated over the whole word. */
  function CapTypeOf(ci: Casing, w: seq<char>): CapType
  {
    if |w| == 0 then NOCAP
    else
      var noCaps := RestHasNoCaps(ci, w);
      var lower := RestHasLower(ci, w);
      if ci.isUpper(w[0]) then
        (if noCaps then INITCAP else if lower then HUHINITCAP else ALLCAP)
      else
        (if noCaps then NOCAP else if lower || LowerLike(ci, w[0]) then HUHCAP else ALLCAP)
  }

  /**
   * get_captype: a backward scan over w[1..] that records whether an
   * upper-case and a lower-case character were seen, stopping once both
   * are known.
   */
  method GetCapType(w: seq<char>, ci: Casing) returns (r: CapType)
    ensures r == CapTypeOf(ci, w)
    ensures |w| == 0 ==> r == NOCAP
    ensures r == INITCAP <==> |w| > 0 && ci.isUpper(w[0]) && RestHasNoCaps(ci, w)
  {
    var n := |w|;
    if n == 0 {
      return NOCAP;
    }
    var hasLower, hasNoCaps := false, true;
    var i := n - 1;
    while i > 0
      invariant 0 <= i < n
      invariant hasNoCaps <==> forall k :: i < k < n ==> !ci.isUpper(w[k])
      invariant hasLower <==> exists k :: i < k < n && !ci.isUpper(w[k]) && LowerLike(ci, w[k])
    {
      var c := w[i];
      if ci.isUpper(c) {
        hasNoCaps := false;
        if hasLower {
          break;
        }
      } else if !hasLower && LowerLike(ci, c) {
        hasLower := true;
      }
      i := i - 1;
    }
    // after an early exit both answers are already settled
    assert !hasNoCaps ==> !RestHasNoCaps(ci, w);
    assert hasNoCaps ==> i == 0;
    assert hasLower ==> RestHasLower(ci, w);
    assert !hasLower ==> i == 0 || hasNoCaps;
    var c := w[0];
    if ci.isUpper(c) {
      r := if hasNoCaps then INITCAP else if hasLower then HUHINITCAP else ALLCAP;
    } else {
      r := if hasNoCaps then NOCAP else if hasLower || LowerLike(ci, c) then HUHCAP else ALLCAP;
    }
  }

  /** Only the capitalised-first-letter form of a word with a lower-case tail is INITCAP. */
  lemma InitCapShape(ci: Casing, w: seq<char>)
    requires |w| > 0 && ci.isUpper(w[0])
    requires forall i :: 1 <= i < |w| ==> ci.isLower(w[i]) && !ci.isUpper(w[i])
    ensures CapTypeOf(ci, w) == INITCAP
  {
  }

  /** A word whose characters after the first are all upper case is ALLCAP or HUHCAP, never a plain form. */
  lemma {:induction false} UpperTailNotPlain(ci: Casing, w: seq<char>)
    requires |w| >= 2 && forall i :: 1 <= i < |w| ==> ci.isUpper(w[i])
    ensures CapTypeOf(ci, w) in {ALLCAP, HUHCAP}
  {
    assert ci.isUpper(w[1]);
    assert !RestHasLower(ci, w);
  }

  /** TextInfo.ToLower on a string: every character mapped to its lower-case form. */
  function LowerCase(ci: Casing, w: seq<char>): (r: seq<char>)
    ensures |r| == |w| && forall i :: 0 <= i < |w| ==> r[i] == ci.toLower(w[i])
  {
    seq(|w|, i requires 0 <= i < |w| => ci.toLower(w[i]))
  }

  /** mkinitcap as a function: the first character mapped to its upper-case form, the rest kept. */
  function InitCapped(ci: Casing, w: seq<char>): (r: seq<char>)
    ensures |r| == |w| && (|w| > 0 ==> r[0] == ci.toUpper(w[0]) && r[1..] == w[1..])
  {
    if w == [] then w else [ci.toUpper(w[0])] + w[1..]
  }
}
