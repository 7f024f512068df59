/** The two regular-expression shapes both source files build their grammars
    from, stated as languages over strings:

    - a Kleene star over literal units, `(\.nl)*` or `(\.(e|pp))*`;
    - the anchored composite `^(S)((;|/)(S))*$` over a single-code language S.

    Because the taxonomy codes never contain `;` or `/`, the composite can
    equally be read as "split on `;` and `/`, every segment a code"; the
    lemma `ChainIffSegmented` proves the two readings agree. */
module Grammar {
  import opened Text

  /** `(;|/)`: the two separators of a composite value. */
  predicate IsSep(c: char)
  {
    c == ';' || c == '/'
  }

  predicate NoSep(s: string)
  {
    forall i | 0 <= i < |s| :: !IsSep(s[i])
  }

  /** `(u1|u2|...)*` over non-empty literal units: `s` is a concatenation of
      zero or more of the units. */
  predicate Star(units: seq<string>, s: string)
    decreases |s|
  {
    || s == []
    || exists k | 0 <= k < |units| :: |units[k]| > 0 && units[k] <= s && Star(units, s[|units[k]|..])
  }

  /** The language of `^(S)((;|/)(S))*$`: one code of `single`, then zero or
      more further codes, each after one separator. */
  predicate Chain(single: string -> bool, s: string)
    decreases |s|
  {
    || single(s)
    || exists i | 0 <= i < |s| :: IsSep(s[i]) && single(s[..i]) && Chain(single, s[i + 1..])
  }

  /** The index of the first separator in `s`, or `|s|` when there is none. */
  function FirstSep(s: string): (k: nat)
    ensures k <= |s|
    ensures NoSep(s[..k])
    ensures k < |s| ==> IsSep(s[k])
  {
    if s == [] then 0
    else if IsSep(s[0]) then 0
    else 1 + FirstSep(s[1..])
  }

  /** `s.split(/;|\//)`: the separator-free segments of `s`, in order. */
  function Split(s: string): (parts: seq<string>)
    ensures |parts| == |Separators(s)| + 1
    ensures forall k | 0 <= k < |parts| :: NoSep(parts[k])
    decreases |s|
  {
    var k := FirstSep(s);
    if k == |s| then [s] else [s[..k]] + Split(s[k + 1..])
  }

  /** The separators of `s`, in order. */
  function Separators(s: string): (seps: string)
    ensures forall j | 0 <= j < |seps| :: IsSep(seps[j])
    decreases |s|
  {
    var k := FirstSep(s);
    if k == |s| then [] else [s[k]] + Separators(s[k + 1..])
  }

  /** Puts the separators back between the segments. */
  function Rejoin(parts: seq<string>, seps: string): (r: string)
    requires |parts| == |seps| + 1
  {
    if seps == [] then parts[0]
    else parts[0] + [seps[0]] + Rejoin(parts[1..], seps[1..])
  }

  /** Splitting loses nothing: the segments and the separators give back `s`. */
  lemma {:induction false} SplitRejoin(s: string)
    ensures Rejoin(Split(s), Separators(s)) == s
    decreases |s|
  {
    var k := FirstSep(s);
    if k < |s| {
      SplitRejoin(s[k + 1..]);
      assert s == s[..k] + [s[k]] + s[k + 1..];
    }
  }

  /** Every segment of `s` is a code of `single`. */
  predicate Segmented(single: string -> bool, s: string)
  {
    forall k | 0 <= k < |Split(s)| :: single(Split(s)[k])
  }

  /** When no code contains a separator, the composite grammar accepts exactly
      the values whose `;`/`/` segments are all codes. */
  lemma {:induction false} ChainIffSegmented(single: string -> bool, s: string)
    requires forall t :: single(t) ==> NoSep(t)
    ensures Chain(single, s) <==> Segmented(single, s)
    decreases |s|
  {
    var k := FirstSep(s);
    if k == |s| {
      assert s[..k] == s;
      assert Split(s) == [s];
      assert Segmented(single, s) <==> single(Split(s)[0]);
      ChainOfNoSep(single, s);
    } else {
      var rest := s[k + 1..];
      ChainIffSegmented(single, rest);
      SegmentedStep(single, s);
      if Chain(single, s) {
        ChainStep(single, s);
      } else {
        assert !(single(s[..k]) && Chain(single, rest));
      }
    }
  }

  /** Segments of a value with a separator: the first one, then those after it. */
  lemma SegmentedStep(single: string -> bool, s: string)
    requires FirstSep(s) < |s|
    ensures Segmented(single, s) <==>
            single(s[..FirstSep(s)]) && Segmented(single, s[FirstSep(s) + 1..])
  {
    var k := FirstSep(s);
    var rest := s[k + 1..];
    assert Split(s) == [s[..k]] + Split(rest);
    AllCons(single, s[..k], Split(rest));
  }

  /** Every part of `[x] + xs` satisfies `single` exactly when `x` and every
      part of `xs` do. */
  lemma AllCons(single: string -> bool, x: string, xs: seq<string>)
    ensures (forall j | 0 <= j < |[x] + xs| :: single(([x] + xs)[j])) <==>
            single(x) && forall j | 0 <= j < |xs| :: single(xs[j])
  {
    var ys := [x] + xs;
    if single(x) && forall j | 0 <= j < |xs| :: single(xs[j]) {
      forall j | 0 <= j < |ys| ensures single(ys[j]) {
        if j > 0 { assert ys[j] == xs[j - 1]; }
      }
    }
    if forall j | 0 <= j < |ys| :: single(ys[j]) {
      assert single(ys[0]);
      forall j | 0 <= j < |xs| ensures single(xs[j]) {
        assert xs[j] == ys[j + 1];
      }
    }
  }

  /** When codes hold no separator, a composite's first code ends at its
      first separator. */
  lemma ChainStep(single: string -> bool, s: string)
    requires forall t :: single(t) ==> NoSep(t)
    requires FirstSep(s) < |s| && Chain(single, s)
    ensures single(s[..FirstSep(s)]) && Chain(single, s[FirstSep(s) + 1..])
  {
    var k := FirstSep(s);
    assert !single(s) by {
      assert IsSep(s[k]);
    }
    var i :| 0 <= i < |s| && IsSep(s[i]) && single(s[..i]) && Chain(single, s[i + 1..]);
    NoSepBefore(s, i);
    NoSepBefore(s, k);
    assert i == k;
  }

  /** A separator-free prefix of length `n` has no separator before index `n`. */
  lemma NoSepBefore(s: string, n: nat)
    requires n <= |s| && NoSep(s[..n])
    ensures forall j | 0 <= j < n :: !IsSep(s[j])
  {
    forall j | 0 <= j < n ensures !IsSep(s[j]) {
      assert s[..n][j] == s[j];
    }
  }

  /** A composite has no empty segment: it is non-empty, neither begins nor
      ends with a separator, and has no two separators in a row. */
  predicate WellSeparated(s: string)
  {
    && s != []
    && !IsSep(s[0])
    && !IsSep(s[|s| - 1])
    && forall i | 0 <= i < |s| - 1 :: !(IsSep(s[i]) && IsSep(s[i + 1]))
  }

  /** With non-empty, separator-free codes, the composite grammar refuses the
      empty value, a leading or trailing separator, and `;;`, `//`, `;/`, `/;`. */
  lemma {:induction false} ChainWellSeparated(single: string -> bool, s: string)
    requires forall t :: single(t) ==> t != [] && NoSep(t)
    requires Chain(single, s)
    ensures WellSeparated(s)
    decreases |s|
  {
    if !single(s) {
      var i :| 0 <= i < |s| && IsSep(s[i]) && single(s[..i]) && Chain(single, s[i + 1..]);
      var rest := s[i + 1..];
      ChainWellSeparated(single, rest);
      assert s[..i][0] == s[0] && s[..i][i - 1] == s[i - 1];
      forall j | 0 <= j < |s| - 1 ensures !(IsSep(s[j]) && IsSep(s[j + 1])) {
        if j < i - 1 {
          assert s[..i][j] == s[j];
        } else if j > i {
          assert rest[j - i - 1] == s[j] && rest[j - i] == s[j + 1];
        }
      }
    }
  }

  /** Two composites joined by a separator form a composite. */
  lemma {:induction false} ChainJoin(single: string -> bool, a: string, c: char, b: string)
    requires Chain(single, a) && IsSep(c) && Chain(single, b)
    ensures Chain(single, a + [c] + b)
    decreases |a|
  {
    var s := a + [c] + b;
    if single(a) {
      assert s[..|a|] == a && s[|a| + 1..] == b;
    } else {
      var i :| 0 <= i < |a| && IsSep(a[i]) && single(a[..i]) && Chain(single, a[i + 1..]);
      ChainJoin(single, a[i + 1..], c, b);
      assert s[..i] == a[..i] && s[i] == a[i];
      assert s[i + 1..] == a[i + 1..] + [c] + b;
    }
  }

  /** Any non-empty sequence of codes, rejoined with separators, is a composite. */
  lemma {:induction false} ChainRejoin(single: string -> bool, parts: seq<string>, seps: string)
    requires |parts| == |seps| + 1
    requires forall k | 0 <= k < |parts| :: single(parts[k])
    requires forall j | 0 <= j < |seps| :: IsSep(seps[j])
    ensures Chain(single, Rejoin(parts, seps))
    decreases |seps|
  {
    if seps != [] {
      ChainRejoin(single, parts[1..], seps[1..]);
      assert single(parts[0]);
      ChainJoin(single, parts[0], seps[0], Rejoin(parts[1..], seps[1..]));
    }
  }

  /** A larger single-code language gives a larger composite language. */
  lemma {:induction false} ChainMonotone(p: string -> bool, q: string -> bool, s: string)
    requires forall t :: p(t) ==> q(t)
    requires Chain(p, s)
    ensures Chain(q, s)
    decreases |s|
  {
    if !p(s) {
      var i :| 0 <= i < |s| && IsSep(s[i]) && p(s[..i]) && Chain(p, s[i + 1..]);
      ChainMonotone(p, q, s[i + 1..]);
    }
  }

  /** A value without separators is a composite exactly when it is one code. */
  lemma ChainOfNoSep(single: string -> bool, s: string)
    requires NoSep(s)
    ensures Chain(single, s) <==> single(s)
  {
  }

  /** `u` written `n` times in a row. */
  function Repeat(u: string, n: nat): (r: string)
  {
    if n == 0 then [] else u + Repeat(u, n - 1)
  }

  /** Any number of repetitions of a unit is in the unit's star. */
  lemma {:induction false} StarOfRepeat(u: string, n: nat)
    requires |u| > 0
    ensures Star([u], Repeat(u, n))
  {
    if n > 0 {
      var s, rest := Repeat(u, n), Repeat(u, n - 1);
      StarOfRepeat(u, n - 1);
      assert s == u + rest && s[|u|..] == rest;
      assert [u][0] == u && u <= s;
    }
  }

  /** Everything in a unit's star is some number of repetitions of it. */
  lemma {:induction false} RepeatOfStar(u: string, s: string) returns (n: nat)
    requires |u| > 0 && Star([u], s)
    ensures s == Repeat(u, n)
    decreases |s|
  {
    if s == [] {
      n := 0;
    } else {
      assert [u][0] == u;
      var m := RepeatOfStar(u, s[|u|..]);
      assert s == u + s[|u|..];
      n := m + 1;
    }
  }

  /** A star over one unit, `(\.nl)*` say, is exactly the repetitions of that unit. */
  lemma StarOneUnit(u: string, s: string)
    requires |u| > 0
    ensures Star([u], s) <==> exists n: nat :: s == Repeat(u, n)
  {
    if Star([u], s) {
      var n := RepeatOfStar(u, s);
    }
    if exists n: nat :: s == Repeat(u, n) {
      var n: nat :| s == Repeat(u, n);
      StarOfRepeat(u, n);
    }
  }

  predicate NoSepUnits(units: seq<string>)
  {
    forall k | 0 <= k < |units| :: NoSep(units[k])
  }

  /** Concatenating separator-free strings gives a separator-free string. */
  lemma NoSepConcat(a: string, b: string)
    requires NoSep(a) && NoSep(b)
    ensures NoSep(a + b)
  {
    forall i | 0 <= i < |a + b| ensures !IsSep((a + b)[i]) {
      if i >= |a| { assert (a + b)[i] == b[i - |a|]; }
    }
  }

  /** A star over separator-free units matches only separator-free strings. */
  lemma {:induction false} StarNoSep(units: seq<string>, s: string)
    requires NoSepUnits(units) && Star(units, s)
    ensures NoSep(s)
    decreases |s|
  {
    if s != [] {
      var k :| 0 <= k < |units| && |units[k]| > 0 && units[k] <= s && Star(units, s[|units[k]|..]);
      StarNoSep(units, s[|units[k]|..]);
      assert s == units[k] + s[|units[k]|..];
      NoSepConcat(units[k], s[|units[k]|..]);
    }
  }

  /** One more unit in front of a starred string stays in the star. */
  lemma StarCons(units: seq<string>, k: nat, s: string)
    requires k < |units| && |units[k]| > 0 && Star(units, s)
    ensures Star(units, units[k] + s)
  {
    assert (units[k] + s)[|units[k]|..] == s;
  }
}
