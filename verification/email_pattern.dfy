/**
 * The e-mail check of the registration service, the regular expression
 * `/^[^\s@]+@[^\s@]+\.[^\s@]+$/` applied with `test`.
 *
 * `Test` is a backtracking matcher for that pattern, written one regular
 * expression position per predicate.  `EmailShape` is an independent,
 * declarative reading of which strings the pattern describes.  The lemma
 * `TestIffShape` proves that the two agree on every string.
 */
module EmailPattern {
  import opened JsText

  /** The code unit `@`. */
  const At: CodeUnit := 0x40
  /** The code unit `.`. */
  const Dot: CodeUnit := 0x2E

  /** One unit of the class `[^\s@]`. Note that `.` belongs to it. */
  predicate Plain(u: CodeUnit) {
    !IsWs(u) && u != At
  }

  /** Every unit of `t` belongs to `[^\s@]`. */
  predicate AllPlain(t: JsString) {
    forall k | 0 <= k < |t| :: Plain(t[k])
  }

  // ---------------------------------------------------------------------------
  // Declarative reading of the pattern
  // ---------------------------------------------------------------------------

  /**
   * `r` has a `.` at index `d`, every other unit of `r` is in `[^\s@]`, and
   * at least one unit follows the `.`.
   */
  ghost predicate DotAt(r: JsString, d: nat) {
    d + 1 < |r| && r[d] == Dot && AllPlain(r[..d]) && AllPlain(r[d + 1..])
  }

  /**
   * The part after the `@`: no whitespace and no `@`, and a `.` with
   * non-empty text on both sides of it.
   */
  ghost predicate DomainShape(r: JsString) {
    exists d: nat :: 0 < d && DotAt(r, d)
  }

  /** `s` is L `@` R where L is a run of `[^\s@]` of length `a` and R is a domain. */
  ghost predicate AtAt(s: JsString, a: nat) {
    a < |s| && s[a] == At && AllPlain(s[..a]) && DomainShape(s[a + 1..])
  }

  /**
   * The strings the pattern describes: L `@` R with L non-empty and free of
   * whitespace and `@`, and R a domain as described by `DomainShape`.
   */
  ghost predicate EmailShape(s: JsString) {
    exists a: nat :: 0 < a && AtAt(s, a)
  }

  // ---------------------------------------------------------------------------
  // The matcher: one predicate per position in the pattern
  // ---------------------------------------------------------------------------

  /** `^[^\s@]+` has consumed one unit of the local part; match the rest. */
  predicate Test(s: JsString) {
    |s| > 0 && Plain(s[0]) && InLocal(s[1..])
  }

  /**
   * Inside `[^\s@]+` before the `@`.  The next unit either extends the run
   * or, being `@`, ends it; since `@` is not in the class there is nothing to
   * backtrack over.
   */
  predicate InLocal(s: JsString)
    decreases |s|
  {
    |s| > 0 &&
    if Plain(s[0]) then InLocal(s[1..]) else s[0] == At && AfterAt(s[1..])
  }

  /** Just after `@`: the domain run needs at least one unit. */
  predicate AfterAt(s: JsString) {
    |s| > 0 && Plain(s[0]) && InDomain(s[1..])
  }

  /**
   * Inside the domain run `[^\s@]+`.  A `.` here may be the separator `\.`
   * or one more unit of the run: the matcher tries both, as a backtracking
   * regular expression engine does.
   */
  predicate InDomain(s: JsString)
    decreases |s|
  {
    |s| > 0 &&
    ((s[0] == Dot && Tld(s[1..])) || (Plain(s[0]) && InDomain(s[1..])))
  }

  /** The final `[^\s@]+$`: one or more units of the class up to the end. */
  predicate Tld(s: JsString)
    decreases |s|
  {
    |s| > 0 && Plain(s[0]) && (|s| == 1 || Tld(s[1..]))
  }

  // ---------------------------------------------------------------------------
  // The matcher accepts exactly the declared shape
  // ---------------------------------------------------------------------------

  /** A non-empty run is plain when its head and its tail are. */
  lemma AllPlainCons(s: JsString, n: nat)
    requires 0 < n <= |s|
    ensures AllPlain(s[..n]) <==> Plain(s[0]) && AllPlain(s[1..n])
  {
    assert forall k | 0 <= k < n - 1 :: s[1..n][k] == s[..n][k + 1];
  }

  /** The last position accepts exactly the non-empty plain runs. */
  lemma {:induction false} TldIsPlainRun(s: JsString)
    ensures Tld(s) <==> |s| > 0 && AllPlain(s)
    decreases |s|
  {
    if |s| > 1 {
      TldIsPlainRun(s[1..]);
      AllPlainCons(s, |s|);
      assert s[..|s|] == s;
      assert s[1..|s|] == s[1..];
    }
  }

  /** Inside the domain run, the matcher succeeds exactly when a separating `.` exists. */
  lemma {:induction false} InDomainSpec(s: JsString)
    ensures InDomain(s) <==> exists d: nat :: DotAt(s, d)
    decreases |s|
  {
    if |s| == 0 {
      return;
    }
    var t := s[1..];
    InDomainSpec(t);
    TldIsPlainRun(t);
    if InDomain(s) {
      if s[0] == Dot && Tld(t) {
        assert s[..0] == [];
        assert s[0 + 1..] == t;
        assert DotAt(s, 0);
      } else {
        var d': nat :| DotAt(t, d');
        ShiftDotAt(s, d');
        assert DotAt(s, d' + 1);
      }
    }
    if d: nat :| DotAt(s, d) {
      if d > 0 {
        ShiftDotAt(s, d - 1);
      }
    }
  }

  /** Moving the separator one unit right corresponds to dropping a plain head. */
  lemma ShiftDotAt(s: JsString, d': nat)
    requires |s| > 0
    ensures DotAt(s, d' + 1) <==> Plain(s[0]) && DotAt(s[1..], d')
  {
    if d' + 1 < |s| {
      AllPlainCons(s, d' + 1);
      assert s[1..][..d'] == s[1..d' + 1];
      assert s[1..][d' + 1..] == s[d' + 2..];
    }
  }

  /** Just after `@`, the matcher succeeds exactly on a domain. */
  lemma AfterAtSpec(s: JsString)
    ensures AfterAt(s) <==> DomainShape(s)
  {
    if |s| > 0 {
      InDomainSpec(s[1..]);
      if AfterAt(s) {
        var d': nat :| DotAt(s[1..], d');
        ShiftDotAt(s, d');
        assert DotAt(s, d' + 1);
      }
      if DomainShape(s) {
        var d: nat :| 0 < d && DotAt(s, d);
        ShiftDotAt(s, d - 1);
        assert DotAt(s[1..], d - 1);
      }
    }
  }

  /** Dropping a plain head moves the `@` one unit left. */
  lemma ShiftAtAt(s: JsString, a': nat)
    requires |s| > 0
    ensures AtAt(s, a' + 1) <==> Plain(s[0]) && AtAt(s[1..], a')
  {
    if a' + 1 < |s| {
      AllPlainCons(s, a' + 1);
      assert s[1..][..a'] == s[1..a' + 1];
      assert s[1..][a' + 1..] == s[a' + 2..];
    }
  }

  /** Inside the local run, the matcher succeeds exactly when an `@` followed by a domain ends a plain run. */
  lemma {:induction false} InLocalSpec(s: JsString)
    ensures InLocal(s) <==> exists a: nat :: AtAt(s, a)
    decreases |s|
  {
    if |s| == 0 {
      return;
    }
    var t := s[1..];
    InLocalSpec(t);
    AfterAtSpec(t);
    if InLocal(s) {
      if Plain(s[0]) {
        var a': nat :| AtAt(t, a');
        ShiftAtAt(s, a');
        assert AtAt(s, a' + 1);
      } else {
        assert s[..0] == [] && s[0 + 1..] == t;
        assert AtAt(s, 0);
      }
    }
    if a: nat :| AtAt(s, a) {
      if a > 0 {
        assert Plain(s[..a][0]);
        ShiftAtAt(s, a - 1);
      }
    }
  }

  /** The matcher accepts exactly the strings of the declared shape. */
  lemma TestIffShape(s: JsString)
    ensures Test(s) <==> EmailShape(s)
  {
    if |s| > 0 {
      InLocalSpec(s[1..]);
      if Test(s) {
        var a': nat :| AtAt(s[1..], a');
        ShiftAtAt(s, a');
        assert AtAt(s, a' + 1);
      }
      if EmailShape(s) {
        var a: nat :| 0 < a && AtAt(s, a);
        ShiftAtAt(s, a - 1);
        assert AtAt(s[1..], a - 1);
      }
    }
  }

  /** In a matching string the `@` that separates the parts is the only one. */
  lemma ShapeHasOneAt(s: JsString, a: nat)
    requires AtAt(s, a)
    ensures forall k | 0 <= k < |s| && s[k] == At :: k == a
  {
  }

  /** Strings the pattern accepts and rejects. */
  lemma PatternExamples()
    ensures Test(Js("a@b.co"))
    ensures Test(Js("a@b.c.d"))
    ensures !Test(Js("a@@b.c"))
    ensures !Test(Js("a b@c.d"))
    ensures !Test(Js("a@b"))
    ensures !Test(Js("a@.c"))
  {
  }
}
