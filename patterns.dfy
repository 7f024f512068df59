/** Model of patterns.js: the grammars of the two taxonomy columns, gesture
    type (`patterns.gtype`) and gesture-speech relation (`patterns.gsrel`).

    Each taxonomy is built from named code groups (`this.code`). The groups'
    alternations are joined with `|` into `this.single`, which is wrapped into
    the anchored composite `this.complex`; `test` asks whether a value is in
    the composite's language. The pattern texts are modelled as the strings
    the constructor concatenates; the language of each group is written out
    as a predicate, so `test` is membership in `Chain` over the union of the
    groups rather than a run of a regular-expression engine. */
module Patterns {
  import opened Text
  import opened Grammar

  /** The two objects `Patterns.prototype` holds: `gtype` and `gsrel`. */
  datatype Taxonomy = Gtype | Gsrel

  /** The keys of `this.code`: gtype's `misc`, `deictics`, `reps`; gsrel's
      `simple`, `add`, `rf`, `e`. */
  datatype GroupName = Misc | Deictics | Reps | Simple | Add | Rf | E

  /** One entry of `this.code`: the group's key and its alternation. */
  datatype CodeGroup = CodeGroup(name: GroupName, pattern: string)

  /** `this.code`, in the order the constructor lists (and joins) the groups:
      an object literal, so no key appears twice, and no group is empty. */
  function Code(t: Taxonomy): (groups: seq<CodeGroup>)
    ensures forall i, j | 0 <= i < j < |groups| :: groups[i].name != groups[j].name
    ensures forall i | 0 <= i < |groups| :: groups[i].pattern != []
  {
    match t
    case Gtype =>
      [ CodeGroup(Misc, "C|E|FA|G|S"),
        CodeGroup(Deictics, "DS|DP(\\.nl)*|DSDP"),
        CodeGroup(Reps, "R\\.[adm](\\.(e|pp))*|R\\.met") ]
    case Gsrel =>
      [ CodeGroup(Simple, "DA|MS|UC|X|ADD|RF|E"),
        CodeGroup(Add, "ADD\\.(err(\\.s)*|s|f|met|n[rs]|q|s)"),
        CodeGroup(Rf, "RF\\.[ap]"),
        CodeGroup(E, "E\\.b") ]
  }

  function PatternTexts(groups: seq<CodeGroup>): (texts: seq<string>)
    ensures |texts| == |groups|
    ensures forall i | 0 <= i < |groups| :: texts[i] == groups[i].pattern
  {
    if groups == [] then [] else [groups[0].pattern] + PatternTexts(groups[1..])
  }

  /** `this.single`: the groups' alternations joined by `|`, in group order,
      which gives exactly the texts below. */
  function Single(t: Taxonomy): (r: string)
    ensures t == Gtype ==>
      r == "C|E|FA|G|S" + "|" + "DS|DP(\\.nl)*|DSDP" + "|" + "R\\.[adm](\\.(e|pp))*|R\\.met"
    ensures t == Gsrel ==>
      r == "DA|MS|UC|X|ADD|RF|E" + "|" + "ADD\\.(err(\\.s)*|s|f|met|n[rs]|q|s)"
           + "|" + "RF\\.[ap]" + "|" + "E\\.b"
  {
    var g := PatternTexts(Code(t));
    if t == Gtype then
      JoinThree(g, "|");
      Join(g, "|")
    else
      JoinFour(g, "|");
      Join(g, "|")
  }

  lemma JoinThree(p: seq<string>, sep: string)
    requires |p| == 3
    ensures Join(p, sep) == p[0] + sep + p[1] + sep + p[2]
  {
    assert p == [p[0]] + ([p[1]] + [p[2]]);
    JoinCons(p[0], [p[1]] + [p[2]], sep);
    JoinCons(p[1], [p[2]], sep);
  }

  lemma JoinFour(p: seq<string>, sep: string)
    requires |p| == 4
    ensures Join(p, sep) == p[0] + sep + p[1] + sep + p[2] + (sep + p[3])
  {
    assert p == [p[0]] + p[1..];
    JoinCons(p[0], p[1..], sep);
    JoinThree(p[1..], sep);
  }

  /** `this.complex`: the single-code pattern anchored, then repeated after
      `;` or `/`; for the two taxonomies exactly the texts below. */
  function Complex(t: Taxonomy): (r: string)
    ensures t == Gtype ==> (
      r ==
        "^(" + ("C|E|FA|G|S" + "|" + "DS|DP(\\.nl)*|DSDP" + "|" + "R\\.[adm](\\.(e|pp))*|R\\.met")
        + ")((;|/)(" + ("C|E|FA|G|S" + "|" + "DS|DP(\\.nl)*|DSDP" + "|" + "R\\.[adm](\\.(e|pp))*|R\\.met")
        + "))*$")
    ensures t == Gsrel ==> (
      r ==
        "^(" + ("DA|MS|UC|X|ADD|RF|E" + "|" + "ADD\\.(err(\\.s)*|s|f|met|n[rs]|q|s)" + "|" + "RF\\.[ap]" + "|" + "E\\.b")
        + ")((;|/)(" + ("DA|MS|UC|X|ADD|RF|E" + "|" + "ADD\\.(err(\\.s)*|s|f|met|n[rs]|q|s)" + "|" + "RF\\.[ap]" + "|" + "E\\.b")
        + "))*$")
  {
    "^(" + Single(t) + ")((;|/)(" + Single(t) + "))*$"
  }

  // The language of each group, as its alternation reads.

  /** `C|E|FA|G|S` */
  predicate GtypeMisc(s: string)
  {
    s in ["C", "E", "FA", "G", "S"]
  }

  /** `DS|DP(\.nl)*|DSDP` */
  predicate GtypeDeictics(s: string)
  {
    s == "DS" || s == "DSDP" || ("DP" <= s && Star([".nl"], s[2..]))
  }

  /** `R\.[adm](\.(e|pp))*|R\.met` */
  predicate GtypeReps(s: string)
  {
    || s == "R.met"
    || (|s| >= 3 && "R." <= s && s[2] in "adm" && Star([".e", ".pp"], s[3..]))
  }

  /** `DA|MS|UC|X|ADD|RF|E` */
  predicate GsrelSimple(s: string)
  {
    s in ["DA", "MS", "UC", "X", "ADD", "RF", "E"]
  }

  /** `ADD\.(err(\.s)*|s|f|met|n[rs]|q|s)` */
  predicate GsrelAdd(s: string)
  {
    && "ADD." <= s
    && (|| ("err" <= s[4..] && Star([".s"], s[7..]))
        || s[4..] in ["s", "f", "met", "nr", "ns", "q", "s"])
  }

  /** `RF\.[ap]` */
  predicate GsrelRf(s: string)
  {
    s in ["RF.a", "RF.p"]
  }

  /** `E\.b` */
  predicate GsrelE(s: string)
  {
    s == "E.b"
  }

  /** The language of a group of `this.code`, found by its key. */
  predicate InGroup(name: GroupName, s: string)
  {
    match name
    case Misc => GtypeMisc(s)
    case Deictics => GtypeDeictics(s)
    case Reps => GtypeReps(s)
    case Simple => GsrelSimple(s)
    case Add => GsrelAdd(s)
    case Rf => GsrelRf(s)
    case E => GsrelE(s)
  }

  /** The language of `this.single`: a value in one of the taxonomy's groups. */
  predicate SingleCode(t: Taxonomy, s: string)
  {
    exists g | g in Code(t) :: InGroup(g.name, s)
  }

  predicate GtypeSingle(s: string)
  {
    SingleCode(Gtype, s)
  }

  predicate GsrelSingle(s: string)
  {
    SingleCode(Gsrel, s)
  }

  /** `this.single` as a language, for the composite grammar. */
  function SingleOf(t: Taxonomy): (single: string -> bool)
  {
    match t
    case Gtype => GtypeSingle
    case Gsrel => GsrelSingle
  }

  /** `test(value)`: `this.regex.test(value)`, membership of the whole value in
      the language of `this.complex`. No code holds `;` or `/`, so this is
      "split on `;` and `/`, every segment a code". */
  function Test(t: Taxonomy, value: string): (r: bool)
    ensures r <==> Segmented(SingleOf(t), value)
  {
    assert forall s | SingleOf(t)(s) :: NoSep(s) by {
      forall s | SingleOf(t)(s) ensures NoSep(s) {
        CodesSeparatorFree(t, s);
      }
    }
    ChainIffSegmented(SingleOf(t), value);
    Chain(SingleOf(t), value)
  }

  /** A single code is the union of the groups, group by group. */
  lemma SingleCodeGroups(s: string)
    ensures GtypeSingle(s) <==> GtypeMisc(s) || GtypeDeictics(s) || GtypeReps(s)
    ensures GsrelSingle(s) <==> GsrelSimple(s) || GsrelAdd(s) || GsrelRf(s) || GsrelE(s)
  {
    GtypeSingleGroups(s);
    GsrelSingleGroups(s);
  }

  lemma GtypeSingleGroups(s: string)
    ensures GtypeSingle(s) <==> GtypeMisc(s) || GtypeDeictics(s) || GtypeReps(s)
  {
    assert Code(Gtype)[0] in Code(Gtype) && Code(Gtype)[1] in Code(Gtype) && Code(Gtype)[2] in Code(Gtype);
  }

  lemma GsrelSingleGroups(s: string)
    ensures GsrelSingle(s) <==> GsrelSimple(s) || GsrelAdd(s) || GsrelRf(s) || GsrelE(s)
  {
    assert Code(Gsrel)[0] in Code(Gsrel) && Code(Gsrel)[1] in Code(Gsrel);
    assert Code(Gsrel)[2] in Code(Gsrel) && Code(Gsrel)[3] in Code(Gsrel);
  }

  /** A value made of a separator-free prefix and a separator-free rest. */
  lemma NoSepSplitAt(s: string, k: nat)
    requires k <= |s| && NoSep(s[..k]) && NoSep(s[k..])
    ensures NoSep(s)
  {
    assert s == s[..k] + s[k..];
    NoSepConcat(s[..k], s[k..]);
  }

  /** No code of either taxonomy is empty or holds `;` or `/`, which is what
      lets the composite be read as a split on the separators. */
  lemma CodesSeparatorFree(t: Taxonomy, s: string)
    requires SingleCode(t, s)
    ensures s != [] && NoSep(s)
  {
    SingleCodeGroups(s);
    if t == Gtype {
      GtypeGroupsSeparatorFree(s);
    } else {
      GsrelGroupsSeparatorFree(s);
    }
  }

  lemma GtypeGroupsSeparatorFree(s: string)
    requires GtypeMisc(s) || GtypeDeictics(s) || GtypeReps(s)
    ensures s != [] && NoSep(s)
  {
    if GtypeMisc(s) || s == "DS" || s == "DSDP" || s == "R.met" {
      LiteralCodesSeparatorFree(s);
    } else if GtypeDeictics(s) {
      StarNoSep([".nl"], s[2..]);
      NoSepSplitAt(s, 2);
    } else {
      StarNoSep([".e", ".pp"], s[3..]);
      NoSepSplitAt(s, 3);
    }
  }

  lemma GsrelGroupsSeparatorFree(s: string)
    requires GsrelSimple(s) || GsrelAdd(s) || GsrelRf(s) || GsrelE(s)
    ensures s != [] && NoSep(s)
  {
    if GsrelAdd(s) {
      AddSeparatorFree(s);
    } else {
      LiteralCodesSeparatorFree(s);
    }
  }

  /** The codes written out letter for letter hold no separator. */
  lemma LiteralCodesSeparatorFree(s: string)
    requires || GtypeMisc(s) || s == "DS" || s == "DSDP" || s == "R.met"
             || GsrelSimple(s) || GsrelRf(s) || GsrelE(s)
    ensures s != [] && NoSep(s)
  {
  }

  lemma AddSeparatorFree(s: string)
    requires GsrelAdd(s)
    ensures s != [] && NoSep(s)
  {
    var tail := s[4..];
    if "err" <= tail && Star([".s"], s[7..]) {
      StarNoSep([".s"], s[7..]);
      assert tail[3..] == s[7..];
      NoSepSplitAt(tail, 3);
    } else {
      assert tail in ["s", "f", "met", "nr", "ns", "q", "s"];
    }
    NoSepSplitAt(s, 4);
  }

  /** Composite closure: codes, or composites, joined by `;` or `/` pass `test`. */
  lemma TestJoin(t: Taxonomy, a: string, c: char, b: string)
    requires Test(t, a) && IsSep(c) && Test(t, b)
    ensures Test(t, a + [c] + b)
  {
    ChainJoin(SingleOf(t), a, c, b);
  }

  /** Composite closure for any number of codes: codes rejoined with `;` and
      `/` in any mix pass `test`. */
  lemma TestRejoin(t: Taxonomy, codes: seq<string>, seps: string)
    requires |codes| == |seps| + 1
    requires forall k | 0 <= k < |codes| :: SingleCode(t, codes[k])
    requires forall j | 0 <= j < |seps| :: IsSep(seps[j])
    ensures Test(t, Rejoin(codes, seps))
  {
    forall k | 0 <= k < |codes| ensures SingleOf(t)(codes[k]) {
      assert SingleCode(t, codes[k]);
    }
    ChainRejoin(SingleOf(t), codes, seps);
  }

  /** `test` refuses the empty value, a leading or trailing separator and an
      empty segment (`;;`, `//`, `;/`, `/;`). */
  lemma TestWellSeparated(t: Taxonomy, value: string)
    requires Test(t, value)
    ensures WellSeparated(value)
  {
    forall s | SingleOf(t)(s) ensures s != [] && NoSep(s) {
      CodesSeparatorFree(t, s);
    }
    ChainWellSeparated(SingleOf(t), value);
  }

  /** The deictic group spelled out: `DS`, `DSDP`, or `DP` followed by any
      number of `.nl`. */
  lemma DeicticsSpelled(s: string)
    ensures GtypeDeictics(s) <==> s == "DS" || s == "DSDP" || exists n: nat :: s == "DP" + Repeat(".nl", n)
  {
    if |s| >= 2 {
      StarOneUnit(".nl", s[2..]);
    }
    if exists n: nat :: s == "DP" + Repeat(".nl", n) {
      var n: nat :| s == "DP" + Repeat(".nl", n);
      assert s[2..] == Repeat(".nl", n);
    }
    if "DP" <= s && Star([".nl"], s[2..]) {
      var n: nat :| s[2..] == Repeat(".nl", n);
      assert s == "DP" + Repeat(".nl", n);
    }
  }

  /** The `ADD.err` branch spelled out: `ADD.err` followed by any number of `.s`. */
  lemma AddErrSpelled(s: string)
    requires "ADD.err" <= s
    ensures GsrelAdd(s) <==> exists n: nat :: s == "ADD.err" + Repeat(".s", n)
  {
    StarOneUnit(".s", s[7..]);
    assert s[4..][..3] == "err" && s[4..][0] == 'e';
    assert s[4..] !in ["s", "f", "met", "nr", "ns", "q", "s"];
    if exists n: nat :: s == "ADD.err" + Repeat(".s", n) {
      var n: nat :| s == "ADD.err" + Repeat(".s", n);
      assert s[7..] == Repeat(".s", n);
    }
    if GsrelAdd(s) {
      var n: nat :| s[7..] == Repeat(".s", n);
      assert s == "ADD.err" + Repeat(".s", n);
    }
  }

  /** A value without `;` or `/` passes `test` exactly when it is one code. */
  lemma TestOneCode(t: Taxonomy, s: string)
    requires NoSep(s)
    ensures Test(t, s) <==> (if t == Gtype then GtypeMisc(s) || GtypeDeictics(s) || GtypeReps(s)
                             else GsrelSimple(s) || GsrelAdd(s) || GsrelRf(s) || GsrelE(s))
  {
    ChainOfNoSep(SingleOf(t), s);
    SingleCodeGroups(s);
  }

  /** `DP` followed by any number of `.nl` is a gesture type (`DP`, `DP.nl`, ...). */
  lemma GtypeAcceptsDpRuns(n: nat)
    ensures Test(Gtype, "DP" + Repeat(".nl", n))
  {
    var s := "DP" + Repeat(".nl", n);
    StarOfRepeat(".nl", n);
    assert s[2..] == Repeat(".nl", n) && s[..2] == "DP";
    GtypeGroupsSeparatorFree(s);
    TestOneCode(Gtype, s);
  }

  /** `R.a`, `R.d` or `R.m` followed by any run of `.e` and `.pp` is a gesture type. */
  lemma GtypeAcceptsRepRuns(c: char, tail: string)
    requires c in "adm" && Star([".e", ".pp"], tail)
    ensures Test(Gtype, "R." + [c] + tail)
  {
    var s := "R." + [c] + tail;
    assert s[3..] == tail && s[2] == c;
    assert "R." <= s by { assert s[..2] == "R."; }
    assert |s| >= 3;
    assert s[2] in "adm";
    assert Star([".e", ".pp"], s[3..]);
    assert GtypeReps(s);
    GtypeGroupsSeparatorFree(s);
    TestOneCode(Gtype, s);
  }

  /** The rejections among the repository's gesture-type pattern tests. */
  lemma GtypeTestRejections(v: string)
    requires v in ["DP.n", "DS.nl"]
    ensures !Test(Gtype, v)
  {
    TestOneCode(Gtype, v);
    if v == "DS.nl" {
      assert v[1] != "DP"[1];
    }
  }

  lemma GtypeTestRejectsRepMet(v: string)
    requires v == "R.a.met"
    ensures !Test(Gtype, v)
  {
    TestOneCode(Gtype, v);
    assert !GtypeReps(v) by {
      assert v[3..] == ".met";
      RepsTailNotMet();
    }
    assert !("DP" <= v) by { assert v[0] != 'D'; }
  }

  /** `ADD.err` followed by any number of `.s` is a gesture-speech relation. */
  lemma GsrelAcceptsErrRuns(n: nat)
    ensures Test(Gsrel, "ADD.err" + Repeat(".s", n))
  {
    var s := "ADD.err" + Repeat(".s", n);
    StarOfRepeat(".s", n);
    assert s[7..] == Repeat(".s", n) && s[..4] == "ADD." && s[4..][..3] == "err";
    GsrelGroupsSeparatorFree(s);
    TestOneCode(Gsrel, s);
  }

  /** Single codes among the repository's gesture-speech-relation pattern tests. */
  lemma GsrelTestCodes(v: string)
    requires v in ["DA", "ADD.nr"]
    ensures Test(Gsrel, v)
  {
    TestOneCode(Gsrel, v);
    if v != "DA" {
      assert v[..4] == "ADD.";
    }
  }

  lemma GsrelTestNearCodes(v: string)
    requires v in ["ADD.er", "ADD.nq", "ADD.n"]
    ensures !Test(Gsrel, v)
  {
    var tail := v[4..];
    assert v == "ADD." + tail && tail in ["er", "nq", "n"];
    AddNearCodeRefused(tail);
  }

  lemma AddNearCodeRefused(tail: string)
    requires tail in ["er", "nq", "n"]
    ensures !Test(Gsrel, "ADD." + tail)
  {
    var v := "ADD." + tail;
    assert v[..4] == "ADD." && v[4..] == tail && |v| >= 5 && v[3] == '.';
    assert NoSep(v);
    TestOneCode(Gsrel, v);
    AddTailsRefused(tail);
  }

  lemma AddTailsRefused(t: string)
    requires t in ["er", "nq", "n"]
    ensures !("err" <= t) && t !in ["s", "f", "met", "nr", "ns", "q", "s"]
  {
  }

  // The composite values among the repository's gesture-speech-relation tests.

  lemma GsrelTestXE()
    ensures Test(Gsrel, "X;E")
  {
    GsrelJoinCodes("X", ';', "E");
    assert "X" + [';'] + "E" == "X;E";
  }

  /** Three codes joined by two separators pass: `DA/MS;X` from the
      repository's tests, and `E.b;RF.a/MS`, the tail of its mixed value. */
  lemma GsrelTestThreeCodes(a: string, c: char, b: string, c2: char, d: string)
    requires a in ["DA", "E.b"] && b in ["MS", "RF.a"] && d in ["X", "MS"]
    requires IsSep(c) && IsSep(c2)
    ensures Test(Gsrel, a + [c] + (b + [c2] + d))
  {
    GsrelJoinCodes(b, c2, d);
    GsrelJoinTest(a, c, b + [c2] + d);
  }

  /** `ADD/ADD.met;E.b;RF.a/MS`, a mixed value from the repository's tests,
      spelled code by code and built up from the right. */
  lemma GsrelTestMixed(v: string)
    requires v == "ADD" + ['/'] + ("ADD.met" + [';'] + ("E.b" + [';'] + ("RF.a" + ['/'] + "MS")))
    ensures Test(Gsrel, v)
  {
    var rest := "ADD.met" + [';'] + ("E.b" + [';'] + ("RF.a" + ['/'] + "MS"));
    GsrelTestMixedRest(rest);
    GsrelJoinTest("ADD", '/', rest);
  }

  lemma GsrelTestMixedRest(v: string)
    requires v == "ADD.met" + [';'] + ("E.b" + [';'] + ("RF.a" + ['/'] + "MS"))
    ensures Test(Gsrel, v)
  {
    var tail := "E.b" + [';'] + ("RF.a" + ['/'] + "MS");
    GsrelTestThreeCodes("E.b", ';', "RF.a", '/', "MS");
    GsrelJoinTest("ADD.met", ';', tail);
  }

  lemma GsrelJoinCodes(a: string, c: char, b: string)
    requires a in ["X", "MS", "RF.a"] && b in ["E", "X", "MS"] && IsSep(c)
    ensures Test(Gsrel, a + [c] + b)
  {
    TestOneCode(Gsrel, a);
    TestOneCode(Gsrel, b);
    TestJoin(Gsrel, a, c, b);
  }

  lemma GsrelJoinTest(a: string, c: char, b: string)
    requires a in ["DA", "E.b", "ADD.met", "ADD"] && IsSep(c) && Test(Gsrel, b)
    ensures Test(Gsrel, a + [c] + b)
  {
    if a in ["DA", "ADD"] {
      TestOneCode(Gsrel, a);
    } else {
      GsrelTestDotted(a);
    }
    TestJoin(Gsrel, a, c, b);
  }

  lemma GsrelTestDotted(a: string)
    requires a in ["E.b", "ADD.met"]
    ensures Test(Gsrel, a)
  {
    TestOneCode(Gsrel, a);
    if a == "ADD.met" {
      assert a[..4] == "ADD." && a[4..] == "met";
    }
  }

  /** `.met` is not a run of `.e` and `.pp`. */
  lemma RepsTailNotMet()
    ensures !Star([".e", ".pp"], ".met")
  {
    var units := [".e", ".pp"];
    assert !(units[0] <= ".met") by { assert ".met"[1] != units[0][1]; }
    assert !(units[1] <= ".met") by { assert ".met"[1] != units[1][1]; }
  }
}
