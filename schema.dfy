/** Model of schema.js: the validators of the transcript columns `LRB`,
    `Time`, `Gtype`, `GSRel`, `Key` and `Utts`.

    Every validator takes the cell's value and answers `None` (JavaScript's
    `undefined`) when the value is empty or acceptable, and otherwise one
    diagnostic built by `InvalidReply`. Each regular expression of the source
    is a predicate over the value; where a validator first matches a whole
    grammar and then looks for the reason, the grammar and the reasons are
    modelled separately and lemmas relate them. */
module Schema {
  import opened Text
  import opened Grammar
  import Patterns

  // ---------------------------------------------------------------------
  // invalidReply

  /** `invalidReply(col, val, reason)`: the column, `=`, the value between
      backticks and the reason, joined by single spaces. */
  function InvalidReply(col: string, val: string, reason: string): (r: string)
    ensures r == col + " = `" + val + "` " + reason
  {
    var parts := [col, "=", "`" + val + "`", reason];
    JoinCons(col, parts[1..], " ");
    JoinCons("=", parts[2..], " ");
    JoinCons("`" + val + "`", parts[3..], " ");
    Join(parts, " ")
  }

  /** Two diagnostics for the same column and value differ exactly when
      their reasons do. */
  lemma InvalidReplyReason(col: string, val: string, r1: string, r2: string)
    ensures InvalidReply(col, val, r1) == InvalidReply(col, val, r2) <==> r1 == r2
  {
    var head := col + " = `" + val + "` ";
    if InvalidReply(col, val, r1) == InvalidReply(col, val, r2) {
      assert r1 == (head + r1)[|head|..];
      assert r2 == (head + r2)[|head|..];
    }
  }

  // ---------------------------------------------------------------------
  // lrb

  predicate IsHand(c: char)
  {
    c == 'L' || c == 'R' || c == 'B'
  }

  /** `^[LRB](?:\+[LRB])*$`: one hand, then any number of `+` and a hand. */
  predicate HandList(s: string)
    decreases |s|
  {
    && |s| >= 1
    && IsHand(s[0])
    && (|s| == 1 || (|s| >= 3 && s[1] == '+' && HandList(s[2..])))
  }

  /** The same language by position: odd length, hands at even indices and
      `+` at odd ones. */
  predicate Alternates(s: string)
  {
    && |s| % 2 == 1
    && forall i | 0 <= i < |s| :: if i % 2 == 0 then IsHand(s[i]) else s[i] == '+'
  }

  lemma {:induction false} HandListIffAlternates(s: string)
    ensures HandList(s) <==> Alternates(s)
    decreases |s|
  {
    if |s| >= 3 {
      var rest := s[2..];
      HandListIffAlternates(rest);
      if Alternates(s) {
        forall i | 0 <= i < |rest| ensures if i % 2 == 0 then IsHand(rest[i]) else rest[i] == '+' {
          assert rest[i] == s[i + 2];
        }
      }
      if HandList(s) {
        forall i | 0 <= i < |s| ensures if i % 2 == 0 then IsHand(s[i]) else s[i] == '+' {
          if i >= 2 { assert s[i] == rest[i - 2]; }
        }
      }
    } else if |s| == 2 {
      assert !Alternates(s);
    }
  }

  /** `lrb(v)`: a non-empty value must alternate hands and `+`. */
  function Lrb(v: string): (r: Option<string>)
    ensures r == None <==> v == [] || Alternates(v)
    ensures r != None ==> r.value == InvalidReply("LRB", v, "is an invalid value")
  {
    HandListIffAlternates(v);
    if v != [] && !HandList(v) then Some(InvalidReply("LRB", v, "is an invalid value"))
    else None
  }

  // ---------------------------------------------------------------------
  // time

  /** `^\d\d:\d\d:\d\d$` */
  predicate TimeShape(v: string)
  {
    && |v| == 8
    && IsDigit(v[0]) && IsDigit(v[1]) && v[2] == ':'
    && IsDigit(v[3]) && IsDigit(v[4]) && v[5] == ':'
    && IsDigit(v[6]) && IsDigit(v[7])
  }

  /** The three fields of a value of the strict shape, as numbers. */
  function Hours(v: string): (h: nat)
    requires TimeShape(v)
    ensures h <= 99
  {
    10 * DigitValue(v[0]) + DigitValue(v[1])
  }

  function Minutes(v: string): (m: nat)
    requires TimeShape(v)
    ensures m <= 99
  {
    10 * DigitValue(v[3]) + DigitValue(v[4])
  }

  function Seconds(v: string): (s: nat)
    requires TimeShape(v)
    ensures s <= 99
  {
    10 * DigitValue(v[6]) + DigitValue(v[7])
  }

  /** `^2[4-9]:` */
  predicate HoursPattern(v: string)
  {
    |v| >= 3 && v[0] == '2' && '4' <= v[1] <= '9' && v[2] == ':'
  }

  /** `^\d\d:[6-9]` */
  predicate MinutesPattern(v: string)
  {
    |v| >= 4 && IsDigit(v[0]) && IsDigit(v[1]) && v[2] == ':' && '6' <= v[3] <= '9'
  }

  /** `:[0-5]\d$` */
  predicate SecondsPattern(v: string)
  {
    |v| >= 3 && v[|v| - 3] == ':' && '0' <= v[|v| - 2] <= '5' && IsDigit(v[|v| - 1])
  }

  /** `^\d:` */
  predicate OneDigitHours(v: string)
  {
    |v| >= 2 && IsDigit(v[0]) && v[1] == ':'
  }

  /** `^\d\d:\d:` */
  predicate OneDigitMinutes(v: string)
  {
    |v| >= 5 && IsDigit(v[0]) && IsDigit(v[1]) && v[2] == ':' && IsDigit(v[3]) && v[4] == ':'
  }

  /** `:\d$` */
  predicate OneDigitSeconds(v: string)
  {
    |v| >= 2 && v[|v| - 2] == ':' && IsDigit(v[|v| - 1])
  }

  /** `time(v)`: a value of the strict shape is checked field by field (only
      hours 24 to 29 count as out of range); any other non-empty value is
      refused with the first format problem found. So it passes the empty
      value and the strict shape with minutes and seconds below 60 and hours
      anything but 24 to 29. */
  function Time(v: string): (r: Option<string>)
    ensures r == None <==>
      v == [] || (TimeShape(v) && !(24 <= Hours(v) <= 29) && Minutes(v) <= 59 && Seconds(v) <= 59)
  {
    if v == [] then None
    else if TimeShape(v) then (
      RangePatterns(v);
      if HoursPattern(v) then Some(InvalidReply("Time", v, "out of range for hours"))
      else if MinutesPattern(v) then Some(InvalidReply("Time", v, "out of range for minutes"))
      else if !SecondsPattern(v) then Some(InvalidReply("Time", v, "out of range for seconds"))
      else None)
    else if HasSpace(v) then Some(InvalidReply("Time", v, "entry cannot contain space"))
    else if OneDigitHours(v) then Some(InvalidReply("Time", v, "need two digits for hours"))
    else if OneDigitMinutes(v) then Some(InvalidReply("Time", v, "need two digits for minutes"))
    else if OneDigitSeconds(v) then Some(InvalidReply("Time", v, "need two digits for seconds"))
    else Some(InvalidReply("Time", v, "required format is HH:MM:SS"))
  }

  /** On the strict shape the three range checks are numeric comparisons. */
  lemma RangePatterns(v: string)
    requires TimeShape(v)
    ensures HoursPattern(v) <==> 24 <= Hours(v) <= 29
    ensures MinutesPattern(v) <==> Minutes(v) >= 60
    ensures SecondsPattern(v) <==> Seconds(v) <= 59
  {
  }

  /** Out-of-range fields are reported hours first, then minutes, then seconds. */
  lemma TimeRangeOrder(v: string)
    requires TimeShape(v)
    ensures 24 <= Hours(v) <= 29 ==> Time(v) == Some(InvalidReply("Time", v, "out of range for hours"))
    ensures !(24 <= Hours(v) <= 29) && Minutes(v) >= 60 ==>
      Time(v) == Some(InvalidReply("Time", v, "out of range for minutes"))
    ensures !(24 <= Hours(v) <= 29) && Minutes(v) <= 59 && Seconds(v) >= 60 ==>
      Time(v) == Some(InvalidReply("Time", v, "out of range for seconds"))
  {
    RangePatterns(v);
  }

  /** Every non-empty value off the strict shape is refused, for the first
      of these that applies: white space, one-digit hours, one-digit
      minutes, one-digit seconds; failing all of them, the format. */
  lemma TimeOffShape(v: string)
    requires v != [] && !TimeShape(v)
    ensures Time(v) != None
    ensures HasSpace(v) ==> Time(v) == Some(InvalidReply("Time", v, "entry cannot contain space"))
    ensures !HasSpace(v) && OneDigitHours(v) ==>
      Time(v) == Some(InvalidReply("Time", v, "need two digits for hours"))
    ensures !HasSpace(v) && !OneDigitHours(v) && OneDigitMinutes(v) ==>
      Time(v) == Some(InvalidReply("Time", v, "need two digits for minutes"))
    ensures !HasSpace(v) && !OneDigitHours(v) && !OneDigitMinutes(v) && OneDigitSeconds(v) ==>
      Time(v) == Some(InvalidReply("Time", v, "need two digits for seconds"))
    ensures !HasSpace(v) && !OneDigitHours(v) && !OneDigitMinutes(v) && !OneDigitSeconds(v) ==>
      Time(v) == Some(InvalidReply("Time", v, "required format is HH:MM:SS"))
  {
  }

  /** `time` as evidently intended: every hour above 23 is out of range
      (`^([3-9]\d|2[4-9]):` in place of `^2[4-9]:`); the rest is unchanged. */
  function TimeIntended(v: string): (r: Option<string>)
    ensures r == None <==>
      v == [] || (TimeShape(v) && Hours(v) <= 23 && Minutes(v) <= 59 && Seconds(v) <= 59)
    ensures TimeShape(v) && Hours(v) >= 24 ==> r == Some(InvalidReply("Time", v, "out of range for hours"))
  {
    if TimeShape(v) && Hours(v) >= 24 then Some(InvalidReply("Time", v, "out of range for hours"))
    else Time(v)
  }

  /** The source's hours check lets 30 to 99 through: `30:00:00` is accepted. */
  lemma TimeAcceptsThirtyHours()
    ensures Time("30:00:00") == None
    ensures TimeIntended("30:00:00") == Some(InvalidReply("Time", "30:00:00", "out of range for hours"))
  {
    var v := "30:00:00";
    assert TimeShape(v) && Hours(v) == 30 && Minutes(v) == 0 && Seconds(v) == 0;
  }

  /** The two agree on every value except the strict shape with hours 30 to 99. */
  lemma TimeIntendedAgrees(v: string)
    requires !(TimeShape(v) && Hours(v) >= 30)
    ensures TimeIntended(v) == Time(v)
  {
    if TimeShape(v) {
      RangePatterns(v);
    }
  }

  // ---------------------------------------------------------------------
  // gtype and gsrel: the code lists

  /** Letter words joined by single dots, such as `R.a.pp`, `DSDP` or
      `ADD.err.s`: the shape of every code both grammars list. */
  predicate Dotted(p: string)
    decreases |p|
  {
    && |p| > 0
    && IsLetter(p[0])
    && (|| |p| == 1
        || (IsLetter(p[1]) && Dotted(p[1..]))
        || (p[1] == '.' && Dotted(p[2..])))
  }

  /** Begins and ends with a letter, and has no two non-letters side by side. */
  predicate Framed(s: string)
  {
    && s != []
    && IsLetter(s[0])
    && IsLetter(s[|s| - 1])
    && forall i | 0 <= i < |s| - 1 :: IsLetter(s[i]) || IsLetter(s[i + 1])
  }

  /** Only letters, dots and separators. */
  predicate CodeAlphabet(s: string)
  {
    forall i | 0 <= i < |s| :: IsLetter(s[i]) || s[i] == '.' || IsSep(s[i])
  }

  lemma {:induction false} DottedShape(p: string)
    requires Dotted(p)
    ensures Framed(p) && NoSep(p)
    ensures forall i | 0 <= i < |p| :: IsLetter(p[i]) || p[i] == '.'
    decreases |p|
  {
    if |p| > 1 {
      var k := if IsLetter(p[1]) then 1 else 2;
      var rest := p[k..];
      DottedShape(rest);
      forall i | 1 <= i < |p| ensures IsLetter(p[i]) || p[i] == '.' {
        if i >= k { assert p[i] == rest[i - k]; }
      }
      forall i | 0 <= i < |p| - 1 ensures IsLetter(p[i]) || IsLetter(p[i + 1]) {
        if i >= k { assert p[i] == rest[i - k] && p[i + 1] == rest[i + 1 - k]; }
        else if i == 1 { assert p[2] == rest[0]; }
      }
      assert p[|p| - 1] == rest[|rest| - 1];
    }
  }

  /** The 19 codes the `gtype` grammar lists, dots escaped. */
  const GtypeCodes: seq<string> :=
    [ "C", "DP", "DP.nl", "DS", "DSDP", "E", "FA", "G", "S",
      "R.a", "R.d", "R.m", "R.a.pp", "R.d.pp", "R.m.pp", "R.a.e", "R.d.e", "R.m.e", "R.met" ]

  /** The 18 codes the `gsrel` grammar lists, written with unescaped dots. */
  const GsrelCodes: seq<string> :=
    [ "DA", "MS", "UC", "X", "ADD", "ADD.err", "ADD.err.s", "ADD.f", "ADD.met",
      "ADD.nr", "ADD.ns", "ADD.q", "ADD.s", "E", "E.b", "RF", "RF.a", "RF.p" ]

  /** Every listed code is letter words joined by single dots. */
  lemma GtypeCodesDotted()
    ensures forall p | p in GtypeCodes :: Dotted(p)
  {
    forall p | p in GtypeCodes ensures Dotted(p) {
      if p in ["C", "DP", "DP.nl", "DS", "DSDP", "E", "FA", "G", "S"] {
        DottedGtypeFirst();
      } else if p in ["R.a", "R.d", "R.m", "R.a.pp", "R.d.pp"] {
        DottedGtypeReps();
      } else {
        DottedGtypeRepsMore();
      }
    }
  }

  lemma GsrelCodesDotted()
    ensures forall p | p in GsrelCodes :: Dotted(p)
  {
    forall p | p in GsrelCodes ensures Dotted(p) {
      if p in ["DA", "MS", "UC", "X", "ADD", "E", "RF"] {
        DottedGsrelSimple();
      } else if p in ["ADD.err", "ADD.err.s", "ADD.f", "ADD.met"] {
        DottedGsrelAdd();
      } else if p in ["ADD.nr", "ADD.ns", "ADD.q", "ADD.s"] {
        DottedGsrelAddMore();
      } else {
        DottedGsrelRest();
      }
    }
  }

  lemma DottedGtypeFirst()
    ensures Dotted("C") && Dotted("DP") && Dotted("DP.nl") && Dotted("DS")
      && Dotted("DSDP") && Dotted("E") && Dotted("FA") && Dotted("G")
      && Dotted("S")
  {
  }

  lemma DottedGtypeReps()
    ensures Dotted("R.a") && Dotted("R.d") && Dotted("R.m") && Dotted("R.a.pp")
      && Dotted("R.d.pp")
  {
  }

  lemma DottedGtypeRepsMore()
    ensures Dotted("R.m.pp") && Dotted("R.a.e") && Dotted("R.d.e")
      && Dotted("R.m.e") && Dotted("R.met")
  {
  }

  lemma DottedGsrelSimple()
    ensures Dotted("DA") && Dotted("MS") && Dotted("UC") && Dotted("X")
      && Dotted("ADD") && Dotted("E") && Dotted("RF")
  {
  }

  lemma DottedGsrelAdd()
    ensures Dotted("ADD.err") && Dotted("ADD.err.s") && Dotted("ADD.f")
      && Dotted("ADD.met")
  {
  }

  lemma DottedGsrelAddMore()
    ensures Dotted("ADD.nr") && Dotted("ADD.ns") && Dotted("ADD.q")
      && Dotted("ADD.s")
  {
  }

  lemma DottedGsrelRest()
    ensures Dotted("E.b") && Dotted("RF.a") && Dotted("RF.p")
  {
  }

  /** `gtype`'s single code: one of the listed codes, exactly. */
  predicate GtypeCode(s: string)
  {
    s in GtypeCodes
  }

  /** `p` read as an unescaped pattern: each `.` stands for any character but
      a line terminator, every other character for itself. The regex has no
      `u` flag, so `.` matches one UTF-16 code unit: a character outside the
      Basic Multilingual Plane is two units and no template has two dots in
      a row, so such a character never fills a wildcard. */
  predicate MatchesTemplate(p: string, s: string)
  {
    && |s| == |p|
    && forall i | 0 <= i < |p| ::
         if p[i] == '.' then !IsLineTerminator(s[i]) && OneCodeUnit(s[i]) else s[i] == p[i]
  }

  /** `gsrel`'s single code as the source writes it: a value matching one of
      the listed codes with every dot a wildcard. */
  predicate GsrelCode(s: string)
  {
    exists p | p in GsrelCodes :: MatchesTemplate(p, s)
  }

  /** `gsrel`'s single code with the dots escaped: one of the listed codes. */
  predicate GsrelCodeIntended(s: string)
  {
    s in GsrelCodes
  }

  /** A value matching a dotted template keeps the template's frame: the
      wildcards sit between letters. */
  lemma TemplateFramed(p: string, s: string)
    requires Dotted(p) && MatchesTemplate(p, s)
    ensures Framed(s)
  {
    DottedShape(p);
    forall i | 0 <= i < |s| - 1 ensures IsLetter(s[i]) || IsLetter(s[i + 1]) {
      assert IsLetter(p[i]) || IsLetter(p[i + 1]);
    }
  }

  /** Each list's codes, and every value the unescaped templates match, are framed. */
  lemma CodesFramed(s: string)
    ensures GtypeCode(s) ==> Framed(s) && NoSep(s) && CodeAlphabet(s)
    ensures GsrelCodeIntended(s) ==> Framed(s) && NoSep(s) && CodeAlphabet(s)
    ensures GsrelCode(s) ==> Framed(s)
  {
    GtypeCodesDotted();
    GsrelCodesDotted();
    if GtypeCode(s) || GsrelCodeIntended(s) {
      DottedShape(s);
    }
    if GsrelCode(s) {
      var p :| p in GsrelCodes && MatchesTemplate(p, s);
      TemplateFramed(p, s);
    }
  }

  /** A composite of framed codes is framed: a separator always sits between
      two letters. */
  lemma {:induction false} ChainFramed(single: string -> bool, s: string)
    requires forall t :: single(t) ==> Framed(t)
    requires Chain(single, s)
    ensures Framed(s)
    decreases |s|
  {
    if !single(s) {
      var i :| 0 <= i < |s| && IsSep(s[i]) && single(s[..i]) && Chain(single, s[i + 1..]);
      var first, rest := s[..i], s[i + 1..];
      ChainFramed(single, rest);
      assert first[0] == s[0] && first[i - 1] == s[i - 1];
      forall j | 0 <= j < |s| - 1 ensures IsLetter(s[j]) || IsLetter(s[j + 1]) {
        if j < i - 1 {
          assert first[j] == s[j] && first[j + 1] == s[j + 1];
        } else if j == i {
          assert rest[0] == s[j + 1];
        } else if j > i {
          assert rest[j - i - 1] == s[j] && rest[j - i] == s[j + 1];
        }
      }
      assert s[|s| - 1] == rest[|rest| - 1];
    }
  }

  /** A composite of codes over letters and dots uses only letters, dots
      and separators. */
  lemma {:induction false} ChainAlphabet(single: string -> bool, s: string)
    requires forall t :: single(t) ==> CodeAlphabet(t)
    requires Chain(single, s)
    ensures CodeAlphabet(s)
    decreases |s|
  {
    if !single(s) {
      var i :| 0 <= i < |s| && IsSep(s[i]) && single(s[..i]) && Chain(single, s[i + 1..]);
      var first, rest := s[..i], s[i + 1..];
      ChainAlphabet(single, rest);
      forall j | 0 <= j < |s| ensures IsLetter(s[j]) || s[j] == '.' || IsSep(s[j]) {
        if j < i {
          assert first[j] == s[j];
        } else if j > i {
          assert rest[j - i - 1] == s[j];
        }
      }
    }
  }

  // ---------------------------------------------------------------------
  // gtype and gsrel: the reasons

  /** The defects the two validators look for once the grammar has refused
      a value, in the order they look for them. */
  datatype Defect =
    | Space | BeginSemicolon | BeginSlash | BeginDot | EndSemicolon | EndSlash | EndDot
    | Numeric | DoubleSlash | DoubleSemicolon | DoubleDot

  const CodeDefects: seq<Defect> :=
    [ Space, BeginSemicolon, BeginSlash, BeginDot, EndSemicolon, EndSlash, EndDot,
      Numeric, DoubleSlash, DoubleSemicolon, DoubleDot ]

  /** The test the source runs for a defect: `\s`, `^;`, `^\/`, `^\.`, `;$`,
      `\/$`, `\.$`, `[0-9]`, `\/\/`, `;;`, `\.\.`. */
  predicate Shows(d: Defect, v: string)
  {
    match d
    case Space => HasSpace(v)
    case BeginSemicolon => StartsWith(v, ';')
    case BeginSlash => StartsWith(v, '/')
    case BeginDot => StartsWith(v, '.')
    case EndSemicolon => EndsWith(v, ';')
    case EndSlash => EndsWith(v, '/')
    case EndDot => EndsWith(v, '.')
    case Numeric => HasDigit(v)
    case DoubleSlash => Contains(v, "//")
    case DoubleSemicolon => Contains(v, ";;")
    case DoubleDot => Contains(v, "..")
  }

  function Reason(d: Defect): (r: string)
  {
    match d
    case Space => "entry cannot contain space"
    case BeginSemicolon => "entry cannot begin with ;"
    case BeginSlash => "entry cannot begin with /"
    case BeginDot => "entry cannot begin with ."
    case EndSemicolon => "entry cannot end with ;"
    case EndSlash => "entry cannot end with /"
    case EndDot => "entry cannot end with ."
    case Numeric => "entry cannot contain numeric characters"
    case DoubleSlash => "entry cannot contain //"
    case DoubleSemicolon => "entry cannot contain ;;"
    case DoubleDot => "entry cannot contain .."
  }

  /** The first defect of `ds` that `v` shows: the early return of the cascade. */
  function FirstDefect(v: string, ds: seq<Defect>): (r: Option<Defect>)
    ensures r == None <==> forall k | 0 <= k < |ds| :: !Shows(ds[k], v)
    ensures r != None ==>
      exists k | 0 <= k < |ds| :: ds[k] == r.value && Shows(ds[k], v)
                               && forall j | 0 <= j < k :: !Shows(ds[j], v)
    decreases |ds|
  {
    if ds == [] then None
    else if Shows(ds[0], v) then Some(ds[0])
    else
      var r := FirstDefect(v, ds[1..]);
      assert r != None ==> exists k | 0 <= k < |ds[1..]| :: ds[1..][k] == r.value && Shows(ds[1..][k], v)
                               && forall j | 0 <= j < k :: !Shows(ds[1..][j], v);
      r
  }

  /** The reason a refused `gtype` or `gsrel` value is given: its first defect,
      or `is an invalid entry` when it shows none. */
  function CodeReason(v: string): (r: string)
    ensures r == "is an invalid entry" <==> forall k | 0 <= k < |CodeDefects| :: !Shows(CodeDefects[k], v)
    ensures r != "is an invalid entry" ==>
      exists k | 0 <= k < |CodeDefects| :: && r == Reason(CodeDefects[k]) && Shows(CodeDefects[k], v)
                                           && forall j | 0 <= j < k :: !Shows(CodeDefects[j], v)
  {
    match FirstDefect(v, CodeDefects)
    case Some(d) => Reason(d)
    case None => "is an invalid entry"
  }

  /** A framed value shows none of the edge and doubling defects. */
  lemma FramedDefects(v: string, d: Defect)
    requires Framed(v) && d != Space && d != Numeric
    ensures !Shows(d, v)
  {
    if d == DoubleSlash || d == DoubleSemicolon || d == DoubleDot {
      var t := match d case DoubleSlash => "//" case DoubleSemicolon => ";;" case _ => "..";
      forall i | 0 <= i <= |v| - 2 ensures !OccursAt(v, t, i) {
        assert IsLetter(v[i]) || IsLetter(v[i + 1]);
      }
    }
  }

  /** A value over letters, dots and separators has no white space and no digit. */
  lemma AlphabetDefects(v: string)
    requires CodeAlphabet(v)
    ensures !Shows(Space, v) && !Shows(Numeric, v)
  {
  }

  /** The codes of a list, and of the composites built from them, show no defect. */
  lemma CodeChainShowsNoDefect(single: string -> bool, v: string, d: Defect)
    requires forall t :: single(t) ==> Framed(t) && CodeAlphabet(t)
    requires Chain(single, v)
    ensures !Shows(d, v)
  {
    ChainFramed(single, v);
    ChainAlphabet(single, v);
    AlphabetDefects(v);
    if d != Space && d != Numeric {
      FramedDefects(v, d);
    }
  }

  lemma GtypeCodesShape()
    ensures forall t :: GtypeCode(t) ==> Framed(t) && CodeAlphabet(t) && NoSep(t)
  {
    forall t | GtypeCode(t) ensures Framed(t) && CodeAlphabet(t) && NoSep(t) {
      CodesFramed(t);
    }
  }

  lemma GsrelCodesShape()
    ensures forall t :: GsrelCodeIntended(t) ==> Framed(t) && CodeAlphabet(t) && NoSep(t)
    ensures forall t :: GsrelCode(t) ==> Framed(t)
  {
    forall t | GsrelCodeIntended(t) ensures Framed(t) && CodeAlphabet(t) && NoSep(t) {
      CodesFramed(t);
    }
    forall t | GsrelCode(t) ensures Framed(t) {
      CodesFramed(t);
    }
  }

  /** `gtype(v)`: a non-empty value must split on `;` and `/` into listed
      codes; otherwise the reason is its first defect. */
  function Gtype(v: string): (r: Option<string>)
    ensures r == None <==> v == [] || Segmented(GtypeCode, v)
  {
    GtypeCodesShape();
    ChainIffSegmented(GtypeCode, v);
    if v != [] && !Chain(GtypeCode, v) then Some(InvalidReply("Gtype", v, CodeReason(v)))
    else None
  }

  /** A refused value that shows none of the defects gets the generic reason. */
  lemma GtypeFallback(v: string)
    requires v != [] && !Segmented(GtypeCode, v)
    requires FirstDefect(v, CodeDefects) == None
    ensures Gtype(v) == Some(InvalidReply("Gtype", v, "is an invalid entry"))
  {
  }

  /** Every defect the cascade looks for is one the grammar refuses, so a value
      showing one is refused with the reason of the first it shows. */
  lemma GtypeReportsFirstDefect(v: string, d: Defect)
    requires FirstDefect(v, CodeDefects) == Some(d)
    ensures Gtype(v) == Some(InvalidReply("Gtype", v, Reason(d)))
  {
    GtypeCodesShape();
    if Chain(GtypeCode, v) {
      CodeChainShowsNoDefect(GtypeCode, v, d);
    }
  }

  /** `gsrel(v)` as written: its grammar reads every dot of a code as a
      wildcard, so the composite is over `GsrelCode`. The wildcards sit
      between letters, so whatever it passes still begins and ends with a
      letter and has a letter on each side of every separator. */
  function Gsrel(v: string): (r: Option<string>)
    ensures r == None <==> v == [] || Chain(GsrelCode, v)
    ensures r == None && v != [] ==> Framed(v)
  {
    assert Chain(GsrelCode, v) ==> Framed(v) by {
      GsrelCodesShape();
      if Chain(GsrelCode, v) { ChainFramed(GsrelCode, v); }
    }
    if v != [] && !Chain(GsrelCode, v) then Some(InvalidReply("GSRel", v, CodeReason(v)))
    else None
  }

  /** A value outside the as-written grammar that shows none of the defects
      gets the generic reason. */
  lemma GsrelFallback(v: string)
    requires v != [] && !Chain(GsrelCode, v)
    requires FirstDefect(v, CodeDefects) == None
    ensures Gsrel(v) == Some(InvalidReply("GSRel", v, "is an invalid entry"))
  {
  }

  /** A character outside the Basic Multilingual Plane is two UTF-16 units, so
      it cannot fill the one-unit wildcard of `ADD.err`: `ADD😀err` is no
      code and, showing no defect, gets the generic reason. */
  lemma GsrelRefusesAstralWildcard(v: string)
    requires v == "ADD\U{1F600}err"
    ensures Gsrel(v) == Some(InvalidReply("GSRel", v, "is an invalid entry"))
  {
    AstralNotGsrel(v);
    AstralShowsNoDefect(v);
    GsrelFallback(v);
  }

  lemma AstralNotGsrel(v: string)
    requires v == "ADD\U{1F600}err"
    ensures !Chain(GsrelCode, v)
  {
    assert NoSep(v);
    ChainOfNoSep(GsrelCode, v);
    forall p | p in GsrelCodes ensures !MatchesTemplate(p, v) {
      if |p| == |v| {
        assert p[3] != v[3] && !OneCodeUnit(v[3]);
      }
    }
  }

  lemma AstralShowsNoDefect(v: string)
    requires v == "ADD\U{1F600}err"
    ensures FirstDefect(v, CodeDefects) == None
  {
    assert !HasSpace(v) && !HasDigit(v) by {
      forall i | 0 <= i < |v| ensures !IsSpace(v[i]) && !IsDigit(v[i]) {
        assert IsLetter(v[i]) || i == 3;
      }
    }
    assert !Contains(v, "//") && !Contains(v, ";;") && !Contains(v, "..") by {
      forall i | 0 <= i < |v| - 1 ensures IsLetter(v[i]) || IsLetter(v[i + 1]) {
        assert i == 3 || IsLetter(v[i]);
      }
      FramedDefects(v, DoubleSlash);
      FramedDefects(v, DoubleSemicolon);
      FramedDefects(v, DoubleDot);
    }
  }

  /** The wildcards never sit at a code's edge or next to a separator, so the
      edge and doubling defects still mean refusal, with the first defect's
      reason (which may be white space or a digit). */
  lemma GsrelReportsFirstDefect(v: string, e: Defect, d: Defect)
    requires Shows(e, v) && e != Space && e != Numeric
    requires FirstDefect(v, CodeDefects) == Some(d)
    ensures Gsrel(v) == Some(InvalidReply("GSRel", v, Reason(d)))
  {
    GsrelCodesShape();
    if Chain(GsrelCode, v) {
      ChainFramed(GsrelCode, v);
      FramedDefects(v, e);
    }
  }

  /** A value outside the as-written grammar that shows a defect is refused
      with the reason of the first defect it shows, white space and digits
      included. */
  lemma GsrelRefusedReason(v: string, d: Defect)
    requires v != [] && !Chain(GsrelCode, v)
    requires FirstDefect(v, CodeDefects) == Some(d)
    ensures Gsrel(v) == Some(InvalidReply("GSRel", v, Reason(d)))
  {
  }

  /** `gsrel` as evidently intended: the dots escaped, as in `gtype`. */
  function GsrelIntended(v: string): (r: Option<string>)
    ensures r == None <==> v == [] || Segmented(GsrelCodeIntended, v)
    ensures r == None ==> Gsrel(v) == None
  {
    GsrelCodesShape();
    ChainIffSegmented(GsrelCodeIntended, v);
    GsrelIntendedWithin(v);
    if v != [] && !Chain(GsrelCodeIntended, v) then Some(InvalidReply("GSRel", v, CodeReason(v)))
    else None
  }

  /** Every listed code matches its own template, so the escaped grammar's
      language is inside the as-written one. */
  lemma GsrelIntendedWithin(v: string)
    ensures Chain(GsrelCodeIntended, v) ==> Chain(GsrelCode, v)
  {
    forall t | GsrelCodeIntended(t) ensures GsrelCode(t) {
      assert MatchesTemplate(t, t);
    }
    if Chain(GsrelCodeIntended, v) {
      ChainMonotone(GsrelCodeIntended, GsrelCode, v);
    }
  }

  lemma GsrelIntendedReportsFirstDefect(v: string, d: Defect)
    requires FirstDefect(v, CodeDefects) == Some(d)
    ensures GsrelIntended(v) == Some(InvalidReply("GSRel", v, Reason(d)))
  {
    GsrelCodesShape();
    if Chain(GsrelCodeIntended, v) {
      CodeChainShowsNoDefect(GsrelCodeIntended, v, d);
    }
  }

  /** The unescaped dot in `ADD.err` lets white space through: `ADD err` is
      accepted as written, and refused for its space once the dots are escaped. */
  lemma GsrelAcceptsSpace(v: string)
    requires v == "ADD err"
    ensures Gsrel(v) == None
    ensures GsrelIntended(v) == Some(InvalidReply("GSRel", v, "entry cannot contain space"))
  {
    GsrelWildcardsBeyondPatterns(v);
    assert IsSpace(v[3]);
    GsrelIntendedReportsFirstDefect(v, Space);
  }

  /** Likewise a digit: `ADD1err` is accepted as written, and refused for
      its digit once the dots are escaped. */
  lemma GsrelAcceptsDigit(v: string)
    requires v == "ADD1err"
    ensures Gsrel(v) == None
    ensures GsrelIntended(v) == Some(InvalidReply("GSRel", v, "entry cannot contain numeric characters"))
  {
    DigitBetweenLetters(v);
    GsrelIntendedRefusesDigit(v);
    GsrelWildcardsBeyondPatterns(v);
  }

  /** Once the dots are escaped, a value between letters with a digit and no
      white space is refused for its digit. */
  lemma GsrelIntendedRefusesDigit(v: string)
    requires v != [] && IsLetter(v[0]) && IsLetter(v[|v| - 1])
    requires !HasSpace(v) && HasDigit(v)
    ensures GsrelIntended(v) == Some(InvalidReply("GSRel", v, "entry cannot contain numeric characters"))
  {
    FirstDefectNumeric(v);
    GsrelIntendedReportsFirstDefect(v, Numeric);
  }

  lemma DigitBetweenLetters(v: string)
    requires v == "ADD1err"
    ensures v != [] && IsLetter(v[0]) && IsLetter(v[|v| - 1])
    ensures !HasSpace(v) && HasDigit(v)
  {
    forall i | 0 <= i < |v| ensures !IsSpace(v[i]) {
      assert IsLetter(v[i]) || IsDigit(v[i]);
    }
    assert IsDigit(v[3]);
  }

  /** A value between letters with a digit and no white space has the digit
      as its first defect. */
  lemma FirstDefectNumeric(v: string)
    requires v != [] && IsLetter(v[0]) && IsLetter(v[|v| - 1])
    requires !HasSpace(v) && HasDigit(v)
    ensures FirstDefect(v, CodeDefects) == Some(Numeric)
  {
    var ds := CodeDefects;
    EdgeDefectsAbsent(v);
    FirstDefectSkip(v, ds, 7);
    var rest := ds[7..];
    assert rest != [] && rest[0] == Numeric;
  }

  /** A value between letters without white space shows none of the first
      seven defects. */
  lemma EdgeDefectsAbsent(v: string)
    requires v != [] && IsLetter(v[0]) && IsLetter(v[|v| - 1]) && !HasSpace(v)
    ensures forall k | 0 <= k < 7 :: !Shows(CodeDefects[k], v)
  {
    forall k | 0 <= k < 7 ensures !Shows(CodeDefects[k], v) {
      assert CodeDefects[k] in [Space, BeginSemicolon, BeginSlash, BeginDot, EndSemicolon, EndSlash, EndDot];
    }
  }

  /** Defects `v` does not show can be dropped from the front of the list. */
  lemma {:induction false} FirstDefectSkip(v: string, ds: seq<Defect>, n: nat)
    requires n <= |ds|
    requires forall k | 0 <= k < n :: !Shows(ds[k], v)
    ensures FirstDefect(v, ds) == FirstDefect(v, ds[n..])
    decreases n
  {
    if n > 0 {
      assert ds[1..][n - 1..] == ds[n..];
      FirstDefectSkip(v, ds[1..], n - 1);
    }
  }

  /** Values the wildcards let through that no listed code spells: the
      grammar of patterns.js refuses them all. */
  lemma GsrelWildcardsBeyondPatterns(v: string)
    requires v in ["ADD err", "ADD1err", "Exb"]
    ensures Gsrel(v) == None
    ensures !Patterns.Test(Patterns.Gsrel, v)
  {
    WildcardCode(v);
    Patterns.TestOneCode(Patterns.Gsrel, v);
    WildcardsNotListed(v);
  }

  /** None of these values is spelled by a code group of patterns.js. */
  lemma WildcardsNotListed(v: string)
    requires v in ["ADD err", "ADD1err", "Exb"]
    ensures !Patterns.GsrelSimple(v) && !Patterns.GsrelAdd(v)
    ensures !Patterns.GsrelRf(v) && !Patterns.GsrelE(v)
  {
    assert !("ADD." <= v) by { assert v[1] != 'D' || v[3] != '.'; }
    assert v != "E.b" by { assert v[1] != '.'; }
  }

  /** Each of these values is a single code as written: a listed code with
      its dot read as a wildcard. */
  lemma WildcardCode(v: string)
    requires v in ["ADD err", "ADD1err", "Exb"]
    ensures GsrelCode(v) && NoSep(v)
  {
    var p := if v == "Exb" then "E.b" else "ADD.err";
    var dot := if v == "Exb" then 1 else 3;
    forall i | 0 <= i < |p| ensures if p[i] == '.' then !IsLineTerminator(v[i]) else v[i] == p[i] {
      if i == dot {} else if i < dot {} else {}
    }
    assert MatchesTemplate(p, v);
    forall i | 0 <= i < |v| ensures !IsSep(v[i]) {
      assert IsLetter(v[i]) || IsDigit(v[i]) || v[i] == ' ';
    }
  }

  // ---------------------------------------------------------------------
  // The code lists against the grammars of patterns.js

  /** `R.a`, `R.d`, `R.m` with no tail, `.e` or `.pp` are repetitions. */
  lemma RepsCode(c: char, tail: string)
    requires c in "adm" && tail in ["", ".e", ".pp"]
    ensures Patterns.GtypeReps("R." + [c] + tail)
  {
    var t := "R." + [c] + tail;
    assert t[..2] == "R." && t[2] == c && t[3..] == tail;
    var units := [".e", ".pp"];
    if tail != "" {
      var k := if tail == ".e" then 0 else 1;
      assert units[k] == tail && tail[|tail|..] == [];
      assert Star(units, tail);
    }
  }

  /** Every listed gesture-type code is in the single-code language of patterns.js. */
  lemma GtypeCodeInPatterns(t: string)
    requires GtypeCode(t)
    ensures Patterns.GtypeSingle(t)
  {
    Patterns.SingleCodeGroups(t);
    if t in ["C", "E", "FA", "G", "S"] {
      assert Patterns.GtypeMisc(t);
    } else if t in ["DP", "DP.nl", "DS", "DSDP"] {
      DeicticCode(t);
    } else {
      RepCode(t);
    }
  }

  lemma DeicticCode(t: string)
    requires t in ["DP", "DP.nl", "DS", "DSDP"]
    ensures Patterns.GtypeDeictics(t)
  {
    if t == "DP.nl" {
      var n := 1;
      StarOfRepeat(".nl", n);
      assert t[2..] == Repeat(".nl", n);
    } else if t == "DP" {
      assert t[2..] == [];
    }
  }

  lemma RepCode(t: string)
    requires GtypeCode(t) && t !in ["C", "E", "FA", "G", "S", "DP", "DP.nl", "DS", "DSDP"]
    ensures Patterns.GtypeReps(t)
  {
    if t != "R.met" {
      assert t == "R." + [t[2]] + t[3..];
      RepsCode(t[2], t[3..]);
    }
  }

  /** Whatever `gtype` accepts, `patterns.gtype.test` accepts. */
  lemma GtypeWithinPatterns(v: string)
    requires v != [] && Gtype(v) == None
    ensures Patterns.Test(Patterns.Gtype, v)
  {
    forall t | GtypeCode(t) ensures Patterns.GtypeSingle(t) {
      GtypeCodeInPatterns(t);
    }
    ChainMonotone(GtypeCode, Patterns.GtypeSingle, v);
  }

  /** The converse fails: the star in `DP(\.nl)*` admits `DP.nl.nl`, which
      is not among the 19 codes. */
  lemma PatternsBeyondGtype(v: string)
    requires v == "DP.nl.nl"
    ensures Patterns.Test(Patterns.Gtype, v)
    ensures Gtype(v) != None
  {
    Patterns.GtypeAcceptsDpRuns(2);
    assert "DP" + Repeat(".nl", 2) == v;
    assert NoSep(v) && forall p | p in GtypeCodes :: |p| < |v| by {
      LongerThanGtypeCodes(v);
    }
    GtypeRefusesLongCode(v);
  }

  lemma LongerThanGtypeCodes(v: string)
    requires v == "DP.nl.nl"
    ensures NoSep(v) && forall p | p in GtypeCodes :: |p| < |v|
  {
  }

  /** A value without separators, longer than every listed code, is refused. */
  lemma GtypeRefusesLongCode(v: string)
    requires NoSep(v) && forall p | p in GtypeCodes :: |p| < |v|
    ensures Gtype(v) != None
  {
    ChainOfNoSep(GtypeCode, v);
  }

  /** Every listed relation code, dots escaped, is in the single-code language
      of patterns.js. */
  lemma GsrelCodeInPatterns(t: string)
    requires GsrelCodeIntended(t)
    ensures Patterns.GsrelSingle(t)
  {
    Patterns.SingleCodeGroups(t);
    if t in ["DA", "MS", "UC", "X", "ADD", "E", "RF"] {
      assert Patterns.GsrelSimple(t);
    } else if t in ["E.b", "RF.a", "RF.p"] {
      assert Patterns.GsrelE(t) || Patterns.GsrelRf(t);
    } else {
      AddCode(t);
    }
  }

  lemma AddCode(t: string)
    requires GsrelCodeIntended(t) && t !in ["DA", "MS", "UC", "X", "ADD", "E", "RF", "E.b", "RF.a", "RF.p"]
    ensures Patterns.GsrelAdd(t)
  {
    assert t[..4] == "ADD.";
    if t in ["ADD.err", "ADD.err.s"] {
      var n := if t == "ADD.err" then 0 else 1;
      StarOfRepeat(".s", n);
      assert t[4..][..3] == "err" && t[7..] == Repeat(".s", n);
    } else {
      assert t[4..] in ["s", "f", "met", "nr", "ns", "q", "s"];
    }
  }

  /** Whatever the escaped `gsrel` grammar accepts, `patterns.gsrel.test` accepts. */
  lemma GsrelIntendedWithinPatterns(v: string)
    requires v != [] && GsrelIntended(v) == None
    ensures Patterns.Test(Patterns.Gsrel, v)
  {
    forall t | GsrelCodeIntended(t) ensures Patterns.GsrelSingle(t) {
      GsrelCodeInPatterns(t);
    }
    GsrelCodesShape();
    ChainIffSegmented(GsrelCodeIntended, v);
    ChainMonotone(GsrelCodeIntended, Patterns.GsrelSingle, v);
  }

  // ---------------------------------------------------------------------
  // key

  /** The one-character tokens of `key`: `[1-9]` and the letters
      a, d, e, F, f, i, l, M, m, o, p, r, t, v, x. */
  predicate IsKeyChar(c: char)
  {
    ('1' <= c <= '9') || c in "adeFfilMmoprtvx"
  }

  /** A run of `key` tokens: the one-character tokens and `xc`. */
  predicate KeyTokens(s: string)
    decreases |s|
  {
    || s == []
    || (IsKeyChar(s[0]) && KeyTokens(s[1..]))
    || (|s| >= 2 && s[0] == 'x' && s[1] == 'c' && KeyTokens(s[2..]))
  }

  /** The same language character by character: every character is a token,
      or a `c` right after an `x`. */
  predicate KeyWellFormed(s: string)
  {
    forall i | 0 <= i < |s| :: IsKeyChar(s[i]) || (s[i] == 'c' && i > 0 && s[i - 1] == 'x')
  }

  lemma KeyTokensIff(s: string)
    ensures KeyTokens(s) <==> KeyWellFormed(s)
  {
    if KeyTokens(s) { KeyTokensWellFormed(s); }
    if KeyWellFormed(s) { WellFormedKeyTokens(s); }
  }

  lemma {:induction false} KeyTokensWellFormed(s: string)
    requires KeyTokens(s)
    ensures KeyWellFormed(s)
    decreases |s|
  {
    if s != [] {
      var k := if IsKeyChar(s[0]) && KeyTokens(s[1..]) then 1 else 2;
      var rest := s[k..];
      KeyTokensWellFormed(rest);
      forall i | 0 <= i < |s| ensures IsKeyChar(s[i]) || (s[i] == 'c' && i > 0 && s[i - 1] == 'x') {
        if i >= k {
          assert s[i] == rest[i - k];
          if i - k > 0 { assert s[i - 1] == rest[i - k - 1]; }
        }
      }
    }
  }

  lemma {:induction false} WellFormedKeyTokens(s: string)
    requires KeyWellFormed(s)
    ensures KeyTokens(s)
    decreases |s|
  {
    if s != [] {
      var xc := |s| >= 2 && s[0] == 'x' && s[1] == 'c';
      var k := if xc then 2 else 1;
      var rest := s[k..];
      forall j | 0 <= j < |rest| ensures IsKeyChar(rest[j]) || (rest[j] == 'c' && j > 0 && rest[j - 1] == 'x') {
        assert rest[j] == s[j + k];
        if j > 0 { assert rest[j - 1] == s[j + k - 1]; }
      }
      WellFormedKeyTokens(rest);
    }
  }

  /** `key(v)`: a non-empty value must be a run of key tokens; otherwise
      white space is named first, then `0`. */
  function Key(v: string): (r: Option<string>)
    ensures r == None <==> v == [] || KeyWellFormed(v)
  {
    KeyTokensIff(v);
    if v != [] && !KeyTokens(v) then
      if HasSpace(v) then Some(InvalidReply("Key", v, "entry cannot contain space"))
      else if '0' in v then Some(InvalidReply("Key", v, "entry cannot contain 0"))
      else Some(InvalidReply("Key", v, "is an invalid entry"))
    else None
  }

  /** White space and `0` are never part of a key, so they are always the
      reason given, in that order. */
  lemma KeyReasons(v: string)
    ensures HasSpace(v) ==> Key(v) == Some(InvalidReply("Key", v, "entry cannot contain space"))
    ensures !HasSpace(v) && '0' in v ==> Key(v) == Some(InvalidReply("Key", v, "entry cannot contain 0"))
  {
    KeyTokensIff(v);
    if HasSpace(v) {
      var i :| 0 <= i < |v| && IsSpace(v[i]);
      NotKeyChar(v[i]);
    }
    if '0' in v {
      var i :| 0 <= i < |v| && v[i] == '0';
      NotKeyChar(v[i]);
    }
  }

  /** A malformed key with no white space and no `0` gets the generic reason. */
  lemma KeyFallback(v: string)
    requires v != [] && !KeyWellFormed(v) && !HasSpace(v) && '0' !in v
    ensures Key(v) == Some(InvalidReply("Key", v, "is an invalid entry"))
  {
  }

  /** White space and `0` are neither a key token nor the `c` of `xc`. */
  lemma NotKeyChar(c: char)
    requires IsSpace(c) || c == '0'
    ensures !IsKeyChar(c) && c != 'c'
  {
  }

  // ---------------------------------------------------------------------
  // utts

  /** `[-#a-z\s]` */
  predicate IsUttsChar(c: char)
  {
    c == '-' || c == '#' || IsLower(c) || IsSpace(c)
  }

  /** `^[-#a-z\s][-#a-z\s]*$` on a non-empty value. */
  predicate UttsAlphabet(v: string)
  {
    forall i | 0 <= i < |v| :: IsUttsChar(v[i])
  }

  /** The check `utts` makes for `-` and again for `#`: a value holding the
      mark must contain three in a row somewhere and four in a row nowhere. */
  function MarkProblem(v: string, m: char): (r: Option<string>)
  {
    if m in v then
      if Contains(v, [m, m, m]) then
        if Contains(v, [m, m, m, m]) then Some("entry can only contain " + [m, m, m]) else None
      else Some("entry cannot contain " + [m] + " or " + [m, m])
    else None
  }

  /** `utts(v)`: lower-case words, white space, `-` and `#`; no white space at
      either end; a value with a dash must contain `---` and no `----`, and
      likewise for `#`. A value outside the alphabet is refused, for a capital
      letter when it has one. */
  function Utts(v: string): (r: Option<string>)
    ensures r == None <==>
      || v == []
      || (&& UttsAlphabet(v) && !IsSpace(v[0]) && !IsSpace(v[|v| - 1])
          && ('-' in v ==> Contains(v, "---") && !Contains(v, "----"))
          && ('#' in v ==> Contains(v, "###") && !Contains(v, "####")))
  {
    MarkProblemReasons(v, '-');
    MarkProblemReasons(v, '#');
    if v == [] then None
    else if UttsAlphabet(v) then
      if IsSpace(v[0]) then Some(InvalidReply("Utts", v, "entry cannot begin with space"))
      else if IsSpace(v[|v| - 1]) then Some(InvalidReply("Utts", v, "entry cannot end with space"))
      else if MarkProblem(v, '-') != None then Some(InvalidReply("Utts", v, MarkProblem(v, '-').value))
      else if MarkProblem(v, '#') != None then Some(InvalidReply("Utts", v, MarkProblem(v, '#').value))
      else None
    else if HasUpper(v) then Some(InvalidReply("Utts", v, "entry cannot contain capital letter"))
    else Some(InvalidReply("Utts", v, "is an invalid entry"))
  }

  /** The mark check names the source's reasons, and passes exactly the values
      without the mark and those that contain three marks in a row and nowhere
      four. */
  lemma MarkProblemReasons(v: string, m: char)
    ensures MarkProblem(v, m) == None <==>
      (m in v ==> Contains(v, [m, m, m]) && !Contains(v, [m, m, m, m]))
    ensures m in v && !Contains(v, [m, m, m]) ==>
      MarkProblem(v, m) == Some("entry cannot contain " + [m] + " or " + [m, m])
    ensures Contains(v, [m, m, m, m]) ==> MarkProblem(v, m) == Some("entry can only contain " + [m, m, m])
  {
    if Contains(v, [m, m, m, m]) {
      assert [m, m, m] + [m] == [m, m, m, m];
      ContainsPrefix(v, [m, m, m], [m]);
      var i :| 0 <= i <= |v| - 4 && OccursAt(v, [m, m, m, m], i);
      assert v[i] == m;
    }
  }

  /** The reason strings for `-` and `#` are the source's. */
  lemma MarkReasonTexts()
    ensures "entry cannot contain " + ['-'] + " or " + ['-', '-'] == "entry cannot contain - or --"
    ensures "entry can only contain " + ['-', '-', '-'] == "entry can only contain ---"
    ensures "entry cannot contain " + ['#'] + " or " + ['#', '#'] == "entry cannot contain # or ##"
    ensures "entry can only contain " + ['#', '#', '#'] == "entry can only contain ###"
  {
  }

  /** A refused value outside the alphabet without a capital letter gets the
      generic reason. */
  lemma UttsFallback(v: string)
    requires v != [] && !UttsAlphabet(v) && !HasUpper(v)
    ensures Utts(v) == Some(InvalidReply("Utts", v, "is an invalid entry"))
  {
  }

  /** Inside the alphabet a value is refused for the first of these that
      applies: white space at the start, white space at the end, a dash
      problem, a `#` problem. */
  lemma UttsReasons(v: string)
    requires v != [] && UttsAlphabet(v)
    ensures IsSpace(v[0]) ==> Utts(v) == Some(InvalidReply("Utts", v, "entry cannot begin with space"))
    ensures !IsSpace(v[0]) && IsSpace(v[|v| - 1]) ==>
      Utts(v) == Some(InvalidReply("Utts", v, "entry cannot end with space"))
    ensures !IsSpace(v[0]) && !IsSpace(v[|v| - 1]) && '-' in v && !Contains(v, "---") ==>
      Utts(v) == Some(InvalidReply("Utts", v, "entry cannot contain - or --"))
    ensures !IsSpace(v[0]) && !IsSpace(v[|v| - 1]) && Contains(v, "----") ==>
      Utts(v) == Some(InvalidReply("Utts", v, "entry can only contain ---"))
    ensures && !IsSpace(v[0]) && !IsSpace(v[|v| - 1])
            && ('-' in v ==> Contains(v, "---") && !Contains(v, "----"))
            && '#' in v && !Contains(v, "###") ==>
      Utts(v) == Some(InvalidReply("Utts", v, "entry cannot contain # or ##"))
    ensures && !IsSpace(v[0]) && !IsSpace(v[|v| - 1])
            && ('-' in v ==> Contains(v, "---") && !Contains(v, "----"))
            && Contains(v, "####") ==>
      Utts(v) == Some(InvalidReply("Utts", v, "entry can only contain ###"))
  {
    MarkProblemReasons(v, '-');
    MarkProblemReasons(v, '#');
    MarkReasonTexts();
  }

  /** Capital letters are outside the alphabet, so a value with one is
      always refused for it; nothing accepted has one. */
  lemma UttsCapitals(v: string)
    requires HasUpper(v)
    ensures Utts(v) == Some(InvalidReply("Utts", v, "entry cannot contain capital letter"))
  {
    var i :| 0 <= i < |v| && IsUpper(v[i]);
    assert !IsUttsChar(v[i]);
  }

  // ---------------------------------------------------------------------
  // utts as evidently intended: every run of a mark is exactly three long

  /** Every run of `m` in `v` is exactly three long: where a run begins, three
      marks follow and then the end or another character. */
  predicate RunsOfThree(v: string, m: char)
  {
    forall i | 0 <= i < |v| && RunBegins(v, m, i) ::
      i + 3 <= |v| && v[i + 1] == m && v[i + 2] == m && (i + 3 == |v| || v[i + 3] != m)
  }

  /** A run of `m` begins at position `i`. */
  predicate RunBegins(v: string, m: char, i: int)
  {
    0 <= i < |v| && v[i] == m && (i == 0 || v[i - 1] != m)
  }

  /** Where the run of marks through position `i` begins. */
  lemma {:induction false} RunStart(v: string, m: char, i: nat) returns (j: nat)
    requires i < |v| && v[i] == m
    ensures j <= i && (j == 0 || v[j - 1] != m)
    ensures forall k | j <= k <= i :: v[k] == m
    decreases i
  {
    if i > 0 && v[i - 1] == m {
      j := RunStart(v, m, i - 1);
    } else {
      j := i;
    }
  }

  /** When every run is three long, no four marks stand in a row. */
  lemma RunsOfThreeNoFour(v: string, m: char)
    requires RunsOfThree(v, m)
    ensures !Contains(v, [m, m, m, m])
  {
    forall i | 0 <= i <= |v| - 4 ensures !OccursAt(v, [m, m, m, m], i) {
      if v[i] == m && v[i + 1] == m && v[i + 2] == m {
        var j := RunStart(v, m, i + 2);
        assert RunBegins(v, m, j);
        assert j == i;
        assert v[i..i + 4][3] == v[i + 3] != m;
      }
    }
  }

  /** When every run is three long, a value with the mark contains three in a row. */
  lemma RunsOfThreeHasRun(v: string, m: char)
    requires RunsOfThree(v, m) && m in v
    ensures Contains(v, [m, m, m])
  {
    var i :| 0 <= i < |v| && v[i] == m;
    var j := RunStart(v, m, i);
    assert RunBegins(v, m, j);
    assert v[j..j + 3] == [m, m, m];
    assert OccursAt(v, [m, m, m], j);
  }

  /** The mark check as evidently intended: every run of the mark is three
      long. A longer run gets `entry can only contain ---`, a shorter one
      `entry cannot contain - or --`; whatever the source refuses, this
      refuses for the same reason. */
  function MarkProblemIntended(v: string, m: char): (r: Option<string>)
    ensures r == None <==> RunsOfThree(v, m)
    ensures MarkProblem(v, m) != None ==> r == MarkProblem(v, m)
  {
    MarkProblemReasons(v, m);
    if RunsOfThree(v, m) then
      RunsOfThreeNoFour(v, m);
      if m in v then RunsOfThreeHasRun(v, m); None else None
    else if Contains(v, [m, m, m, m]) then Some("entry can only contain " + [m, m, m])
    else Some("entry cannot contain " + [m] + " or " + [m, m])
  }

  /** `utts` as evidently intended: dashes and hashes only as runs of
      exactly three. Whatever it passes, the source passes. */
  function UttsIntended(v: string): (r: Option<string>)
    ensures r == None <==>
      || v == []
      || (&& UttsAlphabet(v) && !IsSpace(v[0]) && !IsSpace(v[|v| - 1])
          && RunsOfThree(v, '-') && RunsOfThree(v, '#'))
    ensures r == None ==> Utts(v) == None
  {
    if v == [] || !UttsAlphabet(v) || IsSpace(v[0]) || IsSpace(v[|v| - 1]) then Utts(v)
    else if MarkProblemIntended(v, '-') != None then
      Some(InvalidReply("Utts", v, MarkProblemIntended(v, '-').value))
    else if MarkProblemIntended(v, '#') != None then
      Some(InvalidReply("Utts", v, MarkProblemIntended(v, '#').value))
    else None
  }

  /** A lone `-` beside a `---` passes the source's check: `a --- b - c` is
      accepted as written, and refused once every run must be three long. */
  lemma UttsAcceptsLoneDash(v: string)
    requires v == "a --- b - c"
    ensures Utts(v) == None
    ensures UttsIntended(v) == Some(InvalidReply("Utts", v, "entry cannot contain - or --"))
  {
    LoneDashShape(v);
    assert !RunsOfThree(v, '-') by {
      assert RunBegins(v, '-', 8) && v[9] != '-';
    }
    MarkReasonTexts();
    assert MarkProblemIntended(v, '-') == Some("entry cannot contain - or --");
  }

  lemma LoneDashShape(v: string)
    requires v == "a --- b - c"
    ensures UttsAlphabet(v) && !IsSpace(v[0]) && !IsSpace(v[|v| - 1])
    ensures Contains(v, "---") && !Contains(v, "----") && '#' !in v
  {
    assert OccursAt(v, "---", 2);
    forall i | 0 <= i <= |v| - 4 ensures !OccursAt(v, "----", i) {
      var w := if i <= 1 then 1 else if i <= 5 then 5 else 7;
      assert v[i..i + 4][w - i] == v[w] == ' ';
    }
  }

  // ---------------------------------------------------------------------
  // Cases from the repository's tests, with the source's column names and reasons

  lemma LrbCases(v: string)
    requires v in ["", "X", "L", " L", "LL", "L+L", "L+R", "L+R+B", "L+X", "L + R"]
    ensures Lrb(v) == None <==> v in ["", "L", "L+L", "L+R", "L+R+B"]
  {
  }

  lemma TimeAcceptedCases(v: string)
    requires v in ["00:00:00", "01:00:00", "23:59:59", "30:00:00"]
    ensures Time(v) == None
  {
  }

  lemma TimeRangeCases(v: string)
    requires v in ["24:00:00", "00:60:00", "00:00:60"]
    ensures Time(v) == Some(InvalidReply("Time", v,
      if v[0] == '2' then "out of range for hours"
      else if v[3] == '6' then "out of range for minutes"
      else "out of range for seconds"))
  {
  }

  lemma KeyAcceptedCases(v: string)
    requires v in ["xcx", "M12F2"]
    ensures Key(v) == None
  {
  }

  lemma KeyDigitsCase(v: string)
    requires v == "123456789"
    ensures Key(v) == None
  {
  }

  lemma KeyRefusedCases(v: string)
    requires v in ["Z", "P"]
    ensures Key(v) == Some(InvalidReply("Key", v, "is an invalid entry"))
  {
  }

  lemma KeyDoubleCCase(v: string)
    requires v == "xcc"
    ensures Key(v) == Some(InvalidReply("Key", v, "is an invalid entry"))
  {
    assert !KeyWellFormed(v) by { assert !IsKeyChar(v[2]) && v[1] != 'x'; }
    assert !HasSpace(v) by {
      forall i | 0 <= i < |v| ensures !IsSpace(v[i]) { assert IsLower(v[i]); }
    }
  }

  lemma UttsAcceptedCases(v: string)
    requires v in ["a", "hello"]
    ensures Utts(v) == None
  {
  }

  lemma UttsTwoWordsCase(v: string)
    requires v == "hello world"
    ensures Utts(v) == None
  {
  }

  lemma UttsRunCases(v: string)
    requires v in ["---", "###"]
    ensures Utts(v) == None
  {
    var m := v[0];
    assert v == [m, m, m] && OccursAt(v, [m, m, m], 0);
    assert !Contains(v, [m, m, m, m]);
  }

  lemma TimeFormatCases(v: string)
    requires v in ["1:01:01", "01:1:01", "01:01:1", "0", "00:00"]
    ensures Time(v) == Some(InvalidReply("Time", v,
      if |v| < 7 then "required format is HH:MM:SS"
      else if v[1] == ':' then "need two digits for hours"
      else if v[4] == ':' then "need two digits for minutes"
      else "need two digits for seconds"))
  {
    assert !HasSpace(v) by {
      forall i | 0 <= i < |v| ensures !IsSpace(v[i]) {
        assert IsDigit(v[i]) || v[i] == ':';
      }
    }
  }

  lemma TimeSpaceCases(v: string)
    requires v in ["00:00:00 ", " 00:00:00"]
    ensures Time(v) == Some(InvalidReply("Time", v, "entry cannot contain space"))
  {
    assert IsSpace(v[0]) || IsSpace(v[8]);
  }

  lemma GtypeCodeCases(v: string)
    requires v in ["C", "DP", "G", "S", "DSDP", "R.m.pp"]
    ensures Gtype(v) == None
  {
    assert GtypeCode(v);
  }

  /** Two accepted `gtype` values joined by a separator are accepted. */
  lemma GtypeJoin(a: string, c: char, b: string)
    requires a != [] && b != [] && IsSep(c)
    requires Gtype(a) == None && Gtype(b) == None
    ensures Gtype(a + [c] + b) == None
  {
    GtypeCodesShape();
    ChainIffSegmented(GtypeCode, a);
    ChainIffSegmented(GtypeCode, b);
    ChainJoin(GtypeCode, a, c, b);
  }

  lemma GtypeCompositeCases(v: string)
    requires v in ["C/DP", "C;DP"]
    ensures Gtype(v) == None
  {
    GtypeCodeCases("C");
    GtypeCodeCases("DP");
    GtypeJoin("C", v[1], "DP");
    assert v == "C" + [v[1]] + "DP";
  }

  /** `C/DP;G/S/DSDP`, spelled code by code. */
  lemma GtypeLongCompositeCase(v: string)
    requires v == "C" + ['/'] + ("DP" + [';'] + ("G" + ['/'] + ("S" + ['/'] + "DSDP")))
    ensures Gtype(v) == None
  {
    var tail := "DP" + [';'] + ("G" + ['/'] + ("S" + ['/'] + "DSDP"));
    GtypeLongCompositeTail(tail);
    GtypeCodeCases("C");
    GtypeJoin("C", '/', tail);
  }

  lemma GtypeLongCompositeTail(v: string)
    requires v == "DP" + [';'] + ("G" + ['/'] + ("S" + ['/'] + "DSDP"))
    ensures Gtype(v) == None
  {
    GtypeCodeCases("S");
    GtypeCodeCases("DSDP");
    GtypeJoin("S", '/', "DSDP");
    GtypeCodeCases("G");
    GtypeJoin("G", '/', "S" + ['/'] + "DSDP");
    GtypeCodeCases("DP");
    GtypeJoin("DP", ';', "G" + ['/'] + ("S" + ['/'] + "DSDP"));
  }

  /** Values that are no code, from the repository's tests, get the generic reason. */
  lemma GtypeInvalidLetters(v: string)
    requires v in ["Z", "A"]
    ensures Gtype(v) == Some(InvalidReply("Gtype", v, "is an invalid entry"))
  {
    assert !Segmented(GtypeCode, v) by {
      GtypeCodesShape();
      ChainIffSegmented(GtypeCode, v);
      ChainOfNoSep(GtypeCode, v);
    }
    ShowsNoDefect(v);
    GtypeFallback(v);
  }

  lemma GtypeInvalidPair(v: string)
    requires v == "C/GG"
    ensures Gtype(v) == Some(InvalidReply("Gtype", v, "is an invalid entry"))
  {
    GtypeRefusesPair(v);
    PairShowsNoDefect(v);
    GtypeFallback(v);
  }

  lemma GtypeRefusesPair(v: string)
    requires v == "C/GG"
    ensures !Segmented(GtypeCode, v)
  {
    var tail := v[2..];
    assert FirstSep(v) == 1 && tail == "GG";
    assert FirstSep(tail) == 2;
    assert Split(tail)[0] == "GG" && !GtypeCode("GG");
    SegmentedStep(GtypeCode, v);
  }

  lemma PairShowsNoDefect(v: string)
    requires v == "C/GG"
    ensures FirstDefect(v, CodeDefects) == None
  {
    assert Framed(v) && CodeAlphabet(v);
    ShowsNoDefect(v);
  }

  /** A value framed by letters and over letters, dots and separators shows
      no defect. */
  lemma ShowsNoDefect(v: string)
    requires Framed(v) && CodeAlphabet(v)
    ensures FirstDefect(v, CodeDefects) == None
  {
    AlphabetDefects(v);
    forall k | 0 <= k < |CodeDefects| ensures !Shows(CodeDefects[k], v) {
      if CodeDefects[k] != Space && CodeDefects[k] != Numeric {
        FramedDefects(v, CodeDefects[k]);
      }
    }
  }

  lemma GtypeBeginCase(v: string)
    requires v == ";C/DP"
    ensures Gtype(v) == Some(InvalidReply("Gtype", v, "entry cannot begin with ;"))
  {
    assert !HasSpace(v) by {
      forall i | 0 <= i < |v| ensures !IsSpace(v[i]) {
        assert IsLetter(v[i]) || IsSep(v[i]);
      }
    }
    assert FirstDefect(v, CodeDefects) == Some(BeginSemicolon);
    GtypeReportsFirstDefect(v, BeginSemicolon);
  }

  lemma GtypeSpaceCase(v: string)
    requires v == "C/DP "
    ensures Gtype(v) == Some(InvalidReply("Gtype", v, "entry cannot contain space"))
  {
    assert IsSpace(v[4]);
    GtypeReportsFirstDefect(v, Space);
  }

  /** `X;E ` ends in no letter, so the as-written grammar refuses it too. */
  lemma GsrelSpaceCase(v: string)
    requires v == "X;E "
    ensures Gsrel(v) == Some(InvalidReply("GSRel", v, "entry cannot contain space"))
  {
    assert IsSpace(v[3]);
    GsrelCodesShape();
    if Chain(GsrelCode, v) {
      ChainFramed(GsrelCode, v);
    }
  }

  /** `X/43/E` holds digits after a separator, so it is no composite of the
      codes; its first defect is the digit. */
  lemma GsrelDigitsCase(v: string)
    requires v == "X/43/E"
    ensures Gsrel(v) == Some(InvalidReply("GSRel", v, "entry cannot contain numeric characters"))
  {
    assert IsDigit(v[2]) && !IsLetter(v[1]) && !IsLetter(v[2]);
    assert !HasSpace(v) by {
      forall i | 0 <= i < |v| ensures !IsSpace(v[i]) {
        assert IsLetter(v[i]) || IsDigit(v[i]) || v[i] == '/';
      }
    }
    GsrelCodesShape();
    if Chain(GsrelCode, v) {
      ChainFramed(GsrelCode, v);
    }
    FirstDefectNumeric(v);
    GsrelRefusedReason(v, Numeric);
  }

  /** The `@f` marker is outside the alphabet and is refused as an invalid entry. */
  lemma UttsMarkerCase(v: string)
    requires v == "pollo@f"
    ensures Utts(v) == Some(InvalidReply("Utts", v, "is an invalid entry"))
  {
    assert !IsUttsChar(v[5]);
    assert !HasUpper(v) by {
      forall i | 0 <= i < |v| ensures !IsUpper(v[i]) {
        assert IsLower(v[i]) || v[i] == '@';
      }
    }
  }

  lemma UttsCapitalCase(v: string)
    requires v == "Hello World"
    ensures Utts(v) == Some(InvalidReply("Utts", v, "entry cannot contain capital letter"))
  {
    assert IsUpper(v[0]);
    UttsCapitals(v);
  }

  lemma UttsEdgeSpaceCases(v: string)
    requires v in [" hello", "hello "]
    ensures Utts(v) == Some(InvalidReply("Utts", v,
      if v[0] == ' ' then "entry cannot begin with space" else "entry cannot end with space"))
  {
    assert UttsAlphabet(v) by {
      forall i | 0 <= i < |v| ensures IsUttsChar(v[i]) {
        assert IsLower(v[i]) || v[i] == ' ';
      }
    }
    UttsReasons(v);
  }

  lemma UttsShortRunCases(v: string)
    requires v in ["-", "--", "#", "##"]
    ensures Utts(v) == Some(InvalidReply("Utts", v,
      if v[0] == '-' then "entry cannot contain - or --" else "entry cannot contain # or ##"))
  {
    assert v[0] in v && !Contains(v, [v[0], v[0], v[0]]);
    UttsReasons(v);
  }

  lemma UttsLongRunCases(v: string)
    requires v in ["----", "####"]
    ensures Utts(v) == Some(InvalidReply("Utts", v,
      if v[0] == '-' then "entry can only contain ---" else "entry can only contain ###"))
  {
    assert OccursAt(v, v, 0);
    UttsReasons(v);
  }
}
