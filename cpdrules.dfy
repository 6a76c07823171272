/**
 * The COMPOUNDRULE matcher of AffixMgr.cs (defcpd_check) and the small
 * boundary tests of the compound segmenter: cpdcase_check, cpdpat_check,
 * get_syllable and setcminmax.
 *
 * A compound rule is a sequence of flags in which `*` and `?` stand for
 * "any number of" and "at most one of" the flag before them. defcpd_check
 * matches the flag sets of the members collected so far against each rule
 * with an explicit stack of backtracking points (pattern position, word
 * position, number of words the wildcard took).
 */
module CompoundRules {
  import opened Base
  import opened Flags
  import opened Locale
  import opened AffixEntry
  import opened Ordinal

  /** The wildcard tokens of a compound rule, as flag values. */
  const STAR: Flag := 42
  const QUESTION: Flag := 63

  predicate IsMeta(f: Flag)
  {
    f == STAR || f == QUESTION
  }

  /** A collected member has the flag: TESTAFF on its flags, false for a missing member or one without flags. */
  predicate HasFlag(w: Option<HEntry>, f: Flag)
  {
    w.Some? && Probe(w.value.astr, f)
  }

  method HasFlagTest(w: Option<HEntry>, f: Flag) returns (r: bool)
    ensures r == HasFlag(w, f)
  {
    if w.None? {
      return false;
    }
    r := TestAff(w.value.astr, f);
  }

  // ---------------------------------------------------------------------
  // Termination of the backtracking: the stack read as a number

  function Pow(b: nat, k: nat): nat
  {
    if k == 0 then 1 else b * Pow(b, k - 1)
  }

  /** The digits V in base b, most significant first. */
  function Code(V: seq<nat>, b: nat): nat
    decreases |V|
  {
    if V == [] then 0 else V[0] * Pow(b, |V| - 1) + Code(V[1..], b)
  }

  predicate Digits(V: seq<nat>, b: nat)
  {
    forall i :: 0 <= i < |V| ==> V[i] < b
  }

  lemma MulMono(x: nat, y: nat, z: nat)
    requires x <= y
    ensures x * z <= y * z
  {
  }

  lemma {:induction false} CodeBound(V: seq<nat>, b: nat)
    requires Digits(V, b)
    ensures Code(V, b) < Pow(b, |V|)
    decreases |V|
  {
    if V != [] {
      var P := Pow(b, |V| - 1);
      var c := Code(V[1..], b);
      CodeBound(V[1..], b);
      assert c < P;
      assert Code(V, b) == V[0] * P + c;
      MulMono(V[0] + 1, b, P);
      assert (V[0] + 1) * P == V[0] * P + P;
      assert Pow(b, |V|) == b * P;
    }
  }

  lemma CodeHead(V: seq<nat>, b: nat)
    requires V != []
    ensures Code(V, b) == V[0] * Pow(b, |V| - 1) + Code(V[1..], b)
  {
  }

  /** A smaller leading digit makes a smaller number, whatever follows. */
  lemma CodeLessHead(V: seq<nat>, W: seq<nat>, b: nat)
    requires |V| == |W| && V != [] && Digits(V, b) && V[0] < W[0]
    ensures Code(V, b) < Code(W, b)
  {
    var P := Pow(b, |V| - 1);
    CodeHead(V, b);
    CodeHead(W, b);
    CodeBound(V[1..], b);
    MulMono(V[0] + 1, W[0], P);
    assert (V[0] + 1) * P == V[0] * P + P;
  }

  /** A number whose digits agree with another's down to t and are smaller at t is smaller. */
  lemma {:induction false} CodeLess(V: seq<nat>, W: seq<nat>, b: nat, t: nat)
    requires |V| == |W| && t < |V| && Digits(V, b) && Digits(W, b)
    requires V[..t] == W[..t] && V[t] < W[t]
    ensures Code(V, b) < Code(W, b)
    decreases t
  {
    if t == 0 {
      CodeLessHead(V, W, b);
    } else {
      assert V[0] == V[..t][0] == W[..t][0] == W[0];
      assert V[1..][..t - 1] == V[..t][1..];
      assert W[1..][..t - 1] == W[..t][1..];
      CodeLess(V[1..], W[1..], b, t - 1);
      CodeHead(V, b);
      CodeHead(W, b);
    }
  }

  /** A backtracking point (metachar_data): pattern position, word position, words taken. */
  datatype Bt = Bt(pp: nat, wp: nat, num: int)

  /** The digit of pattern position p: the words the point at p took plus one, or e when there is none. */
  function Slot(bts: seq<Bt>, p: nat, e: nat): nat
    decreases |bts|
  {
    if bts == [] then e
    else if bts[|bts| - 1].pp == p then (if bts[|bts| - 1].num + 1 >= 0 then bts[|bts| - 1].num + 1 else 0)
    else Slot(bts[..|bts| - 1], p, e)
  }

  /** The stack as a digit string over the pattern positions 0..n. */
  function Digs(bts: seq<Bt>, n: nat, e: nat): (V: seq<nat>)
    ensures |V| == n + 1
  {
    seq(n + 1, p requires 0 <= p => Slot(bts, p, e))
  }

  /** The well-formed stack: positions strictly increasing, at most n, counts within the words. */
  predicate StackOk(bts: seq<Bt>, n: nat, wnum: nat)
  {
    && (forall k :: 0 <= k < |bts| ==> bts[k].pp <= n && -1 <= bts[k].num && bts[k].wp + bts[k].num <= wnum + 1)
    && (forall k, l :: 0 <= k < l < |bts| ==> bts[k].pp < bts[l].pp)
  }

  predicate Settled(bts: seq<Bt>)
  {
    forall k :: 0 <= k < |bts| ==> 0 <= bts[k].num
  }

  lemma {:induction false} SlotAbove(bts: seq<Bt>, p: nat, e: nat, n: nat, wnum: nat)
    requires StackOk(bts, n, wnum) && (bts != [] ==> bts[|bts| - 1].pp < p)
    ensures Slot(bts, p, e) == e
    decreases |bts|
  {
    if bts != [] {
      var b := bts[..|bts| - 1];
      assert StackOk(b, n, wnum);
      SlotAbove(b, p, e, n, wnum);
    }
  }

  lemma {:induction false} SlotBound(bts: seq<Bt>, p: nat, e: nat, n: nat, wnum: nat)
    requires StackOk(bts, n, wnum) && wnum + 2 < e
    ensures Slot(bts, p, e) <= e
    decreases |bts|
  {
    if bts != [] && bts[|bts| - 1].pp != p {
      var b := bts[..|bts| - 1];
      assert StackOk(b, n, wnum);
      SlotBound(b, p, e, n, wnum);
    }
  }

  lemma DigsBound(bts: seq<Bt>, n: nat, e: nat, wnum: nat)
    requires StackOk(bts, n, wnum) && wnum + 2 < e
    ensures Digits(Digs(bts, n, e), e + 1)
  {
    forall p | 0 <= p <= n ensures Slot(bts, p, e) < e + 1 {
      SlotBound(bts, p, e, n, wnum);
    }
  }

  /** Pushing a point above every other lowers the digit of its position from e and changes no other. */
  lemma PushLess(bts: seq<Bt>, x: Bt, n: nat, e: nat, wnum: nat)
    requires StackOk(bts, n, wnum) && StackOk(bts + [x], n, wnum) && wnum + 2 < e
    requires (bts != [] ==> bts[|bts| - 1].pp < x.pp) && 0 <= x.num
    ensures Code(Digs(bts + [x], n, e), e + 1) < Code(Digs(bts, n, e), e + 1)
  {
    var bx := bts + [x];
    var V := Digs(bx, n, e);
    var W := Digs(bts, n, e);
    assert bx[..|bx| - 1] == bts && bx[|bx| - 1] == x;
    assert x.pp <= n;
    forall p | 0 <= p < x.pp ensures V[p] == W[p] {
      assert V[p] == Slot(bx, p, e) == Slot(bts, p, e);
    }
    assert V[..x.pp] == W[..x.pp];
    SlotAbove(bts, x.pp, e, n, wnum);
    DigsBound(bts, n, e, wnum);
    DigsBound(bts + [x], n, e, wnum);
    CodeLess(V, W, e + 1, x.pp);
  }

  /** Taking one word back from the top point lowers its digit and changes no other. */
  lemma DecLess(bts: seq<Bt>, n: nat, e: nat, wnum: nat)
    requires bts != [] && StackOk(bts, n, wnum) && wnum + 2 < e && 0 <= bts[|bts| - 1].num
    ensures var t := bts[|bts| - 1];
      var bts' := bts[..|bts| - 1] + [t.(num := t.num - 1)];
      StackOk(bts', n, wnum) && Digs(bts', n, e)[..t.pp] == Digs(bts, n, e)[..t.pp] &&
      Digs(bts', n, e)[t.pp] < Digs(bts, n, e)[t.pp] && Digs(bts', n, e)[t.pp] < e
  {
    var t := bts[|bts| - 1];
    var bts' := bts[..|bts| - 1] + [t.(num := t.num - 1)];
    assert bts'[..|bts'| - 1] == bts[..|bts| - 1];
    var V := Digs(bts', n, e);
    var W := Digs(bts, n, e);
    forall p | 0 <= p < t.pp ensures V[p] == W[p] {
    }
  }

  /**
   * With the top point dropped and the one under it lowered, the digits agree
   * below the new top and are smaller there than those of a stack that
   * agreed with the old one below the old top.
   */
  lemma PopDecLess(bts: seq<Bt>, U: seq<nat>, n: nat, e: nat, wnum: nat)
    requires |bts| >= 2 && StackOk(bts, n, wnum) && wnum + 2 < e && |U| == n + 1
    requires 0 <= bts[|bts| - 2].num
    requires var t := bts[|bts| - 1].pp; Digs(bts, n, e)[..t] == U[..t]
    ensures var b := bts[..|bts| - 1];
      var s := b[|b| - 1];
      var b' := b[..|b| - 1] + [s.(num := s.num - 1)];
      StackOk(b', n, wnum) && Digs(b', n, e)[..s.pp] == U[..s.pp] && Digs(b', n, e)[s.pp] < U[s.pp]
  {
    var b := bts[..|bts| - 1];
    var t := bts[|bts| - 1];
    var s := b[|b| - 1];
    assert s == bts[|bts| - 2];
    assert StackOk(b, n, wnum);
    DecLess(b, n, e, wnum);
    var b' := b[..|b| - 1] + [s.(num := s.num - 1)];
    var V := Digs(b', n, e);
    var X := Digs(b, n, e);
    var W := Digs(bts, n, e);
    assert s.pp < t.pp;
    forall p | 0 <= p <= s.pp ensures X[p] == W[p] {
      assert p != t.pp;
    }
    forall p | 0 <= p < s.pp ensures V[p] == U[p] {
      assert V[p] == X[p] && X[p] == W[p] && W[..t.pp][p] == U[..t.pp][p];
    }
    assert W[..t.pp][s.pp] == U[..t.pp][s.pp];
  }

  // ---------------------------------------------------------------------
  // Matching one rule

  /** A rule without wildcards (a wildcard in first place is an ordinary flag). */
  predicate Literal(P: seq<Flag>)
  {
    forall j :: 1 <= j < |P| ==> !IsMeta(P[j])
  }

  /**
   * What matching a wildcard-free rule against members 0..wnum amounts to:
   * each member has the flag at its place, and the rule is exactly as long
   * (or, when only a beginning is asked for, at least as long). An empty
   * rule matches everything.
   */
  predicate LiteralMatch(P: seq<Flag>, ws: seq<Option<HEntry>>, wnum: nat, all: bool)
    requires wnum < |ws|
  {
    |P| == 0 ||
    ((forall j :: 0 <= j < |P| && j <= wnum ==> HasFlag(ws[j], P[j])) &&
     (|P| == wnum + 1 || (!all && |P| > wnum + 1)))
  }

  /** The pattern positions from r on are all "flag, wildcard" pairs: the rule may end here. */
  function SkipOptional(P: seq<Flag>, r: nat): (r': nat)
    ensures r <= r'
    decreases |P| - r
  {
    if |P| > r && r + 1 < |P| && IsMeta(P[r + 1]) then SkipOptional(P, r + 2) else r
  }

  method SkipOptionalLoop(P: seq<Flag>, r0: nat) returns (r: nat)
    ensures r == SkipOptional(P, r0)
  {
    r := r0;
    while |P| > r && r + 1 < |P| && IsMeta(P[r + 1])
      invariant r0 <= r && SkipOptional(P, r) == SkipOptional(P, r0)
      decreases |P| - r
    {
      r := r + 2;
    }
  }

  lemma LiteralSkip(P: seq<Flag>, r: nat)
    requires Literal(P)
    ensures SkipOptional(P, r) == r
  {
    if |P| > r && r + 1 < |P| {
      assert !IsMeta(P[r + 1]);
    }
  }

  /** The members from wp on that carry flag f, up to wend: the position after the last one taken. */
  method TakeWildcard(f: Flag, ws: seq<Option<HEntry>>, wp0: nat, wend: nat) returns (wp: nat)
    requires wp0 <= wend < |ws|
    ensures wp0 <= wp <= wend + 1
    ensures forall k :: wp0 <= k < wp ==> HasFlag(ws[k], f)
    ensures wp <= wend ==> !HasFlag(ws[wp], f)
  {
    wp := wp0;
    while wp <= wend
      invariant wp0 <= wp <= wend + 1
      invariant forall k :: wp0 <= k < wp ==> HasFlag(ws[k], f)
      decreases wend + 1 - wp
    {
      var has := HasFlagTest(ws[wp], f);
      if !has {
        return;
      }
      wp := wp + 1;
    }
  }

  /**
   * A rule position followed by a wildcard: take as many members with the
   * flag as the wildcard allows and remember the point when it took any.
   */
  method WildcardStep(P: seq<Flag>, ws: seq<Option<HEntry>>, wnum: nat, ghost e: nat,
                      pp0: nat, wp0: nat, bts0: seq<Bt>)
    returns (pp: nat, wp: nat, ok2: bool, bts: seq<Bt>)
    requires wnum < |ws| && e == wnum + 3 && wp0 <= wnum
    requires pp0 + 1 < |P| && IsMeta(P[pp0 + 1]) && StackOk(bts0, |P|, wnum) && Settled(bts0)
    requires bts0 != [] ==> bts0[|bts0| - 1].pp <= pp0
    ensures pp == pp0 + 2 && wp <= wnum + 1 && StackOk(bts, |P|, wnum) && Settled(bts)
    ensures bts != [] ==> bts[|bts| - 1].pp <= pp
    ensures Code(Digs(bts, |P|, e), e + 1) <= Code(Digs(bts0, |P|, e), e + 1)
  {
    hide StackOk, Settled, Code, Digs;
    var n := |P|;
    var wend := if P[pp0 + 1] == QUESTION then wp0 else wnum;
    pp := pp0 + 2;
    wp := TakeWildcard(P[pp0], ws, wp0, wend);
    ok2 := wp > wend && wp > wnum;
    var num := wp - wp0;
    bts := bts0;
    if num > 0 {
      var x := Bt(pp, wp0, num);
      PushOk(bts0, x, n, wnum);
      PushLess(bts0, x, n, e, wnum);
      bts := bts0 + [x];
    }
  }

  /** Pushing a point above the top of a well-formed, settled stack keeps it so. */
  lemma PushOk(bts: seq<Bt>, x: Bt, n: nat, wnum: nat)
    requires StackOk(bts, n, wnum) && Settled(bts) && (bts != [] ==> bts[|bts| - 1].pp < x.pp)
    requires x.pp <= n && 0 <= x.num && x.wp + x.num <= wnum + 1
    ensures StackOk(bts + [x], n, wnum) && Settled(bts + [x]) && (bts + [x])[|bts|] == x
  {
    var bx := bts + [x];
    assert forall k :: 0 <= k < |bts| ==> bx[k] == bts[k];
    forall k, l | 0 <= k < l < |bx| ensures bx[k].pp < bx[l].pp {
      if l == |bts| && k < |bts| - 1 {
        assert bts[k].pp < bts[|bts| - 1].pp;
      }
    }
  }

  /**
   * The forward scan of defcpd_check (its inner while loop): consume the
   * rule and the members together, pushing a backtracking point for every
   * wildcard that took at least one member.
   */
  method Scan(P: seq<Flag>, ws: seq<Option<HEntry>>, wnum: nat, ghost e: nat,
              pp0: nat, wp0: nat, bts0: seq<Bt>, ok0: bool, ok20: bool)
    returns (pp: nat, ok: bool, ok2: bool, bts: seq<Bt>)
    requires wnum < |ws| && e == wnum + 3
    requires pp0 <= |P| && wp0 <= wnum + 1 && StackOk(bts0, |P|, wnum) && Settled(bts0)
    requires bts0 != [] ==> bts0[|bts0| - 1].pp <= pp0
    requires Literal(P) ==> bts0 == [] && pp0 == 0 && wp0 == 0 && ok0 && ok20
    ensures pp <= |P| && StackOk(bts, |P|, wnum) && Settled(bts)
    ensures Code(Digs(bts, |P|, e), e + 1) <= Code(Digs(bts0, |P|, e), e + 1)
    ensures Literal(P) ==> bts == [] && exists wp :: LiteralEnd(P, ws, wnum, pp, wp, ok, ok2)
  {
    var n := |P|;
    pp, ok, ok2, bts := pp0, ok0, ok20, bts0;
    var wp: nat := wp0;
    while pp < n && wp <= wnum
      invariant pp <= n && wp <= wnum + 1 && StackOk(bts, n, wnum) && Settled(bts)
      invariant bts != [] ==> bts[|bts| - 1].pp <= pp
      invariant Code(Digs(bts, n, e), e + 1) <= Code(Digs(bts0, n, e), e + 1)
      invariant Literal(P) ==> bts == [] && pp == wp && ok2
      invariant Literal(P) ==> (ok ==> pp < n || n == 0 || pp == wnum + 1) && (!ok ==> 0 < pp == n <= wnum)
      invariant Literal(P) ==> forall j :: 0 <= j < pp ==> HasFlag(ws[j], P[j])
      decreases n - pp
    {
      if pp + 1 < n && IsMeta(P[pp + 1]) {
        assert !Literal(P);
        pp, wp, ok2, bts := WildcardStep(P, ws, wnum, e, pp, wp, bts);
        if ok2 {
          break;
        }
      } else {
        ok2 := true;
        var has := HasFlagTest(ws[wp], P[pp]);
        if !has {
          ok := false;
          break;
        }
        pp := pp + 1;
        wp := wp + 1;
        if n == pp && !(wp > wnum) {
          ok := false;
        }
      }
    }
    assert Literal(P) ==> LiteralEnd(P, ws, wnum, pp, wp, ok, ok2);
  }

  /**
   * The state of the unwinding in Backtrack: the stack stays well formed,
   * every point below the top is settled, pp and wp are the top's, and the
   * digits below its position agree with V while its own digit is below V's.
   */
  ghost predicate Unwinding(bts: seq<Bt>, V: seq<nat>, n: nat, e: nat, wnum: nat, pp: nat, wp: int)
  {
    StackOk(bts, n, wnum) && pp <= n && |V| == n + 1 &&
    (bts != [] ==>
      Settled(bts[..|bts| - 1]) && pp == bts[|bts| - 1].pp && wp == bts[|bts| - 1].wp + bts[|bts| - 1].num &&
      var p := bts[|bts| - 1].pp; Digs(bts, n, e)[..p] == V[..p] && Digs(bts, n, e)[p] < V[p])
  }

  /** Drop a top point that has no member left and take one back from the point below it. */
  method PopPoint(bts: seq<Bt>, ghost V: seq<nat>, ghost n: nat, wnum: nat, ghost e: nat, ghost pp: nat, ghost wp: int)
    returns (bts': seq<Bt>, pp': nat, wp': int)
    requires |bts| >= 2 && e == wnum + 3 && Unwinding(bts, V, n, e, wnum, pp, wp)
    ensures Unwinding(bts', V, n, e, wnum, pp', wp') && |bts'| < |bts|
  {
    assert 0 <= bts[..|bts| - 1][|bts| - 2].num;
    PopDecLess(bts, V, n, e, wnum);
    var b := bts[..|bts| - 1];
    var s := b[|b| - 1];
    assert Settled(b[..|b| - 1]);
    bts' := b[..|b| - 1] + [s.(num := s.num - 1)];
    assert bts'[..|bts'| - 1] == b[..|b| - 1];
    pp' := s.pp;
    wp' := s.wp + (s.num - 1);
  }

  /** The unwinding stops at a settled top: the whole stack is settled and, read as a number, below V. */
  lemma UnwoundLess(bts: seq<Bt>, V: seq<nat>, bts0: seq<Bt>, n: nat, e: nat, wnum: nat, pp: nat, wp: int)
    requires bts != [] && bts[|bts| - 1].num >= 0 && e == wnum + 3
    requires Unwinding(bts, V, n, e, wnum, pp, wp) && StackOk(bts0, n, wnum) && V == Digs(bts0, n, e)
    ensures Settled(bts) && 0 <= wp <= wnum + 1
    ensures Code(Digs(bts, n, e), e + 1) < Code(V, e + 1)
  {
    var p := bts[|bts| - 1].pp;
    assert forall k :: 0 <= k < |bts| - 1 ==> bts[k] == bts[..|bts| - 1][k];
    assert bts[|bts| - 1].pp <= n && bts[|bts| - 1].wp + bts[|bts| - 1].num <= wnum + 1;
    DigsBound(bts, n, e, wnum);
    DigsBound(bts0, n, e, wnum);
    CodeLess(Digs(bts, n, e), V, e + 1, p);
  }

  /**
   * The backtracking step of defcpd_check: take one member back from the
   * latest wildcard, dropping the points that have none left. The stack,
   * read as a number, gets smaller.
   */
  method Backtrack(bts0: seq<Bt>, ghost n: nat, wnum: nat, ghost e: nat)
    returns (bts: seq<Bt>, pp: nat, wp: int)
    requires bts0 != [] && StackOk(bts0, n, wnum) && Settled(bts0) && e == wnum + 3
    ensures StackOk(bts, n, wnum) && Settled(bts) && pp <= n
    ensures bts != [] ==> pp == bts[|bts| - 1].pp && 0 <= wp <= wnum + 1
    ensures bts != [] ==> Code(Digs(bts, n, e), e + 1) < Code(Digs(bts0, n, e), e + 1)
  {
    ghost var V1 := Digs(bts0, n, e);
    var t := bts0[|bts0| - 1];
    DecLess(bts0, n, e, wnum);
    bts := bts0[..|bts0| - 1] + [t.(num := t.num - 1)];
    pp := t.pp;
    wp := t.wp + (t.num - 1);
    assert bts[..|bts| - 1] == bts0[..|bts0| - 1];
    while bts != [] && bts[|bts| - 1].num < 0
      invariant Unwinding(bts, V1, n, e, wnum, pp, wp)
      decreases |bts|
    {
      if |bts| >= 2 {
        bts, pp, wp := PopPoint(bts, V1, n, wnum, e, pp, wp);
      } else {
        bts := [];
      }
    }
    if bts != [] {
      UnwoundLess(bts, V1, bts0, n, e, wnum, pp, wp);
    }
  }

  /**
   * The body of the loop over defcpdtable in defcpd_check: one rule against
   * the flag sets of members 0..wnum, `all` asking for the whole rule to be
   * used. A rule without wildcards matches exactly as LiteralMatch says.
   */
  method MatchRule(P: seq<Flag>, ws: seq<Option<HEntry>>, wnum: nat, all: bool) returns (m: bool)
    requires wnum < |ws|
    ensures Literal(P) ==> (m <==> LiteralMatch(P, ws, wnum, all))
  {
    var n := |P|;
    ghost var e := wnum + 3;
    var pp: nat := 0;
    var wp: int := 0;
    var ok, ok2 := true, true;
    var bts: seq<Bt> := [];
    var go := true;
    while go
      invariant pp <= n && StackOk(bts, n, wnum) && Settled(bts)
      invariant go ==> 0 <= wp <= wnum + 1 && (bts != [] ==> bts[|bts| - 1].pp <= pp)
      invariant !go ==> bts == []
      invariant Literal(P) ==> bts == [] && (go ==> pp == 0 && wp == 0 && ok && ok2)
      invariant Literal(P) && !go ==> exists w :: LiteralEnd(P, ws, wnum, pp, w, ok, ok2)
      decreases if go then Code(Digs(bts, n, e), e + 1) + 1 else 0
    {
      ghost var V0 := Digs(bts, n, e);
      pp, ok, ok2, bts := Scan(P, ws, wnum, e, pp, wp, bts, ok, ok2);
      if ok && ok2 {
        var r := SkipOptionalLoop(P, pp);
        if n <= r {
          if Literal(P) {
            LiteralSkip(P, pp);
          }
          return true;
        }
      }
      if bts != [] {
        ok := true;
        bts, pp, wp := Backtrack(bts, n, wnum, e);
      }
      go := bts != [];
    }
    if ok && ok2 && (!all || n <= pp) {
      return true;
    }
    var r := SkipOptionalLoop(P, pp);
    if Literal(P) {
      LiteralSkip(P, pp);
    }
    m := ok && ok2 && n <= r;
  }

  /**
   * Where the scan of a wildcard-free rule stops: the pattern and word
   * positions move together; the scan succeeds exactly when it used every
   * member (or the rule is empty); it fails on a member without the flag at
   * its place or on a rule shorter than the members.
   */
  predicate LiteralEnd(P: seq<Flag>, ws: seq<Option<HEntry>>, wnum: nat, pp: nat, wp: int, ok: bool, ok2: bool)
    requires wnum < |ws|
  {
    && pp == wp && ok2 && pp <= |P|
    && (ok <==> (pp == wnum + 1 || |P| == 0))
    && (ok ==> forall j :: 0 <= j < pp ==> HasFlag(ws[j], P[j]))
    && (!ok ==> (0 < |P| <= wnum) || exists j :: 0 <= j < |P| && j <= wnum && !HasFlag(ws[j], P[j]))
  }

  // ---------------------------------------------------------------------
  // defcpd_check

  /** Some rule holds one of the member's flags outside a wildcard. */
  predicate Named(table: seq<seq<Flag>>, astr: Option<seq<Flag>>)
  {
    exists i, j :: 0 <= i < |table| && 0 <= j < |table[i]| && !IsMeta(table[i][j]) && Probe(astr, table[i][j])
  }

  /** The scan of defcpdtable for a rule that names one of the member's flags. */
  method NamedTest(table: seq<seq<Flag>>, astr: Option<seq<Flag>>) returns (ok: bool)
    ensures ok <==> Named(table, astr)
  {
    ok := false;
    for i := 0 to |table|
      invariant ok <==> exists i', j :: 0 <= i' < i && 0 <= j < |table[i']| && !IsMeta(table[i'][j]) && Probe(astr, table[i'][j])
    {
      for j := 0 to |table[i]|
        invariant ok <==> exists i', j' :: ((0 <= i' < i && 0 <= j' < |table[i']|) || (i' == i && 0 <= j' < j)) &&
                                           !IsMeta(table[i'][j']) && Probe(astr, table[i'][j'])
      {
        var has := TestAff(astr, table[i][j]);
        if !IsMeta(table[i][j]) && has {
          ok := true;
          break;
        }
      }
    }
  }

  /** Every rule of the table is free of wildcards. */
  predicate AllLiteral(table: seq<seq<Flag>>)
  {
    forall k :: 0 <= k < |table| ==> Literal(table[k])
  }

  /** Some wildcard-free rule matches the members. */
  predicate SomeLiteralMatch(table: seq<seq<Flag>>, ws: seq<Option<HEntry>>, wnum: nat, all: bool)
    requires wnum < |ws|
  {
    exists k :: 0 <= k < |table| && LiteralMatch(table[k], ws, wnum, all)
  }

  /** The loop over defcpdtable: the first rule that matches decides. */
  method MatchTable(table: seq<seq<Flag>>, ws: seq<Option<HEntry>>, wnum: nat, all: bool) returns (m: bool)
    requires wnum < |ws|
    ensures AllLiteral(table) ==> (m <==> SomeLiteralMatch(table, ws, wnum, all))
  {
    for k := 0 to |table|
      invariant AllLiteral(table) ==> forall k' :: 0 <= k' < k ==> !LiteralMatch(table[k'], ws, wnum, all)
    {
      m := MatchRule(table[k], ws, wnum, all);
      if m {
        return;
      }
    }
    m := false;
  }

  /**
   * defcpd_check: member wnum, rv, is put in the members array and the
   * members 0..wnum are matched against the COMPOUNDRULE table. `words` is
   * the caller's array reference: in use (the shared array) or null; when it
   * is null the shared array is used only when `useDef` (a non-null `def`).
   * On success the member stays and the reference is left pointing at the
   * array; otherwise the member is cleared and the reference restored.
   */
  method DefcpdCheck(rwords: array<Option<HEntry>>, inUse: bool, useDef: bool, wnum: nat, rv: HEntry,
                     table: seq<seq<Flag>>, all: bool)
    returns (r: bool, inUse': bool)
    requires wnum < rwords.Length
    modifies rwords
    ensures !inUse && !useDef ==> !r && !inUse' && rwords[..] == old(rwords[..])
    ensures r ==> (inUse || useDef) && inUse' && rwords[..] == old(rwords[..])[wnum := Some(rv)]
    ensures !r && (inUse || useDef) ==> inUse' == inUse && rwords[..] == old(rwords[..])[wnum := None]
    ensures r ==> Named(table, rv.astr)
    ensures (inUse || useDef) && Named(table, rv.astr) && AllLiteral(table) ==>
              (r <==> SomeLiteralMatch(table, old(rwords[..])[wnum := Some(rv)], wnum, all))
  {
    if !inUse && !useDef {
      return false, false;
    }
    rwords[wnum] := Some(rv);
    if rv.astr.None? {
      rwords[wnum] := None;
      return false, inUse;
    }
    var named := NamedTest(table, rv.astr);
    if !named {
      rwords[wnum] := None;
      return false, inUse;
    }
    var m := MatchTable(table, rwords[..], wnum, all);
    if m {
      return true, true;
    }
    rwords[wnum] := None;
    return false, inUse;
  }

  // ---------------------------------------------------------------------
  // The boundary tests

  /** MINCPDLEN: the default least member length. */
  const MINCPDLEN: int := 3

  /**
   * cpdmin after loading: COMPOUNDMIN's value clamped to at least 1, or
   * MINCPDLEN when the affix file has no COMPOUNDMIN.
   */
  function CpdMin(parsed: Option<int>): (m: int)
    ensures m >= 1
    ensures parsed.None? ==> m == MINCPDLEN
    ensures parsed.Some? ==> m == (if parsed.value < 1 then 1 else parsed.value)
  {
    var m := if parsed.Some? then (if parsed.value < 1 then 1 else parsed.value) else -1;
    if m == -1 then MINCPDLEN else m
  }

  /** setcminmax: the range [cmin, cmax) of first-member lengths tried on a word of length len. */
  function CMinMax(cpdmin: int, len: int): (r: (int, int))
  {
    (cpdmin, len - cpdmin + 1)
  }

  /** Both members of a split at i have at least cpdmin characters. */
  predicate SplitOk(cpdmin: int, len: int, i: int)
  {
    cpdmin <= i && cpdmin <= len - i
  }

  /** The split positions setcminmax allows are exactly those leaving both members long enough. */
  lemma CMinMaxExact(cpdmin: int, len: int, i: int)
    ensures var r := CMinMax(cpdmin, len); (r.0 <= i < r.1 <==> SplitOk(cpdmin, len, i))
  {
  }

  /**
   * cpdcase_check: the boundary before pos joins an upper-case character to
   * its neighbour, and neither of the two is a hyphen.
   */
  predicate CpdCase(ci: Casing, word: seq<char>, pos: nat)
    requires 0 < pos < |word|
  {
    var a, b := word[pos - 1], word[pos];
    (ci.isUpper(a) || ci.isUpper(b)) && a != '-' && b != '-'
  }

  /** A hyphen on either side, or no upper case on either side, never forbids the boundary. */
  lemma CpdCaseVetoes(ci: Casing, word: seq<char>, pos: nat)
    requires 0 < pos < |word|
    ensures word[pos - 1] == '-' || word[pos] == '-' ==> !CpdCase(ci, word, pos)
    ensures !ci.isUpper(word[pos - 1]) && !ci.isUpper(word[pos]) ==> !CpdCase(ci, word, pos)
    ensures CpdCase(ci, word, pos) ==> CpdCase(ci, word[..pos + 1], pos)
  {
  }

  /** A CHECKCOMPOUNDPATTERN line: end of the first member, start of the second, their flags, the replacement. */
  datatype PatEntry = PatEntry(pattern: seq<char>, pattern2: seq<char>, pattern3: seq<char>, cond: Flag, cond2: Flag)

  /**
   * One pattern forbids the boundary at pos between members r1 and r2: the
   * second member starts with pattern2, both members carry the pattern's
   * flags (0 for none), and the first member ends with pattern, or, for a
   * pattern starting with '0', is the unmodified stem r1 itself.
   */
  predicate PatHit(e: PatEntry, word: seq<char>, pos: nat, r1: HEntry, r2: HEntry)
    requires pos <= |word|
  {
    && Subset(e.pattern2, word[pos..])
    && (e.cond == 0 || Probe(r1.astr, e.cond))
    && (e.cond2 == 0 || Probe(r2.astr, e.cond2))
    && (|e.pattern| == 0 ||
        (e.pattern[0] == '0' && |r1.word| <= pos && word[pos - |r1.word|..pos] == r1.word) ||
        (e.pattern[0] != '0' && |e.pattern| <= pos && word[pos - |e.pattern|..pos] == e.pattern))
  }

  method PatHitTest(e: PatEntry, word: seq<char>, pos: nat, r1: HEntry, r2: HEntry) returns (r: bool)
    requires pos <= |word|
    ensures r <==> PatHit(e, word, pos, r1, r2)
  {
    var sub := IsSubset(e.pattern2, word, pos);
    if !sub {
      return false;
    }
    if e.cond != 0 {
      var has := TestAff(r1.astr, e.cond);
      if !has {
        return false;
      }
    }
    if e.cond2 != 0 {
      var has := TestAff(r2.astr, e.cond2);
      if !has {
        return false;
      }
    }
    if |e.pattern| == 0 {
      return true;
    }
    if e.pattern[0] == '0' {
      r := |r1.word| <= pos && word[pos - |r1.word|..pos] == r1.word;
    } else {
      r := |e.pattern| <= pos && word[pos - |e.pattern|..pos] == e.pattern;
    }
  }

  /** cpdpat_check: some CHECKCOMPOUNDPATTERN entry forbids the boundary (`affixed` is not read). */
  method CpdPatCheck(table: seq<PatEntry>, word: seq<char>, pos: nat, r1: HEntry, r2: HEntry, affixed: bool)
    returns (r: bool)
    requires pos <= |word|
    ensures r <==> exists k :: 0 <= k < |table| && PatHit(table[k], word, pos, r1, r2)
  {
    for k := 0 to |table|
      invariant forall k' :: 0 <= k' < k ==> !PatHit(table[k'], word, pos, r1, r2)
    {
      r := PatHitTest(table[k], word, pos, r1, r2);
      if r {
        return;
      }
    }
    r := false;
  }

  /** The number of characters of w in the vowel list. */
  function VowelCount(vowels: seq<char>, w: seq<char>): (n: nat)
    ensures n <= |w|
  {
    if w == [] then 0 else VowelCount(vowels, w[..|w| - 1]) + (if w[|w| - 1] in vowels then 1 else 0)
  }

  lemma {:induction false} VowelCountSplit(vowels: seq<char>, a: seq<char>, b: seq<char>)
    ensures VowelCount(vowels, a + b) == VowelCount(vowels, a) + VowelCount(vowels, b)
    decreases |b|
  {
    if b == [] {
      assert a + b == a;
    } else {
      assert (a + b)[..|a + b| - 1] == a + b[..|b| - 1];
      assert (a + b)[|a + b| - 1] == b[|b| - 1];
      VowelCountSplit(vowels, a, b[..|b| - 1]);
    }
  }

  /** The vowel count of w[from..to), extended by one character. */
  lemma VowelCountStep(vowels: seq<char>, w: seq<char>, from: nat, to: nat)
    requires from <= to < |w|
    ensures VowelCount(vowels, w[from..to + 1]) == VowelCount(vowels, w[from..to]) + (if w[to] in vowels then 1 else 0)
  {
    assert w[from..to + 1][..to - from] == w[from..to];
  }

  /** The counting loop of get_syllable over word[i..end). */
  method CountVowels(vowels: seq<char>, word: seq<char>, i0: int, end: int) returns (num: nat)
    requires 0 <= i0 && end <= |word|
    ensures num == (if i0 < end then VowelCount(vowels, word[i0..end]) else 0)
  {
    num := 0;
    var i := i0;
    while i < end
      invariant i0 <= i && (i0 < end ==> i <= end)
      invariant i0 < end ==> num == VowelCount(vowels, word[i0..i])
      invariant i0 >= end ==> num == 0
      decreases end - i
    {
      VowelCountStep(vowels, word, i0, i);
      if word[i] in vowels {
        num := num + 1;
      }
      i := i + 1;
    }
  }

  /**
   * get_syllable(word, i, len): 0 when no syllable limit is set; otherwise
   * the vowels of word[i..len), where a negative len is replaced by
   * `word.Length - i` and then read as an end position (the vowel list is
   * sorted when it is loaded, so its binary search is a membership test).
   */
  method GetSyllable(cpdmaxsyllable: int, vowels: seq<char>, word: seq<char>, i0: nat, len0: int)
    returns (num: nat)
    requires len0 <= |word|
    ensures cpdmaxsyllable == 0 ==> num == 0
    ensures cpdmaxsyllable != 0 && i0 <= len0 ==> num == VowelCount(vowels, word[i0..len0])
    ensures cpdmaxsyllable != 0 && len0 < 0 && i0 <= |word| - i0 ==> num == VowelCount(vowels, word[i0..|word| - i0])
    ensures cpdmaxsyllable != 0 && len0 < 0 && i0 == |word| - i0 + 1 ==> num == 0
  {
    if cpdmaxsyllable == 0 {
      return 0;
    }
    var len := if len0 < 0 then |word| - i0 else len0;
    num := CountVowels(vowels, word, i0, len);
  }

  /** The count get_syllable(word, i) is meant to compute: the vowels of the remainder word[i..]. */
  method SyllablesFrom(cpdmaxsyllable: int, vowels: seq<char>, word: seq<char>, i0: nat) returns (num: nat)
    requires i0 <= |word|
    ensures cpdmaxsyllable == 0 ==> num == 0
    ensures cpdmaxsyllable != 0 ==> num == VowelCount(vowels, word[i0..])
  {
    num := GetSyllable(cpdmaxsyllable, vowels, word, i0, |word|);
    assert word[i0..|word|] == word[i0..];
  }

  /**
   * With the default length and a start past the middle, get_syllable
   * misses the remainder: the vowels of "aaaa" from 2 are counted as 0, 
   * where the remainder "aa" has 2.
   */
  lemma SyllablesDefaultLength()
    ensures VowelCount("a", "aaaa"[2..|"aaaa"| - 2]) == 0
    ensures VowelCount("a", "aaaa"[2..]) == 2
  {
    assert "aaaa"[2..] == "aa";
    assert "aa"[..1] == "a";
    assert "a"[..0] == [];
  }

  /** The whole-word count is the sum of the counts of any split, as the segmenter adds them up. */
  lemma SyllablesOfSplit(vowels: seq<char>, word: seq<char>, i: nat)
    requires i <= |word|
    ensures VowelCount(vowels, word) == VowelCount(vowels, word[..i]) + VowelCount(vowels, word[i..])
  {
    assert word == word[..i] + word[i..];
    VowelCountSplit(vowels, word[..i], word[i..]);
  }
}
