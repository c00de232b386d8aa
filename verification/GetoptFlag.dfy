/** Runs of getopt whose option string begins with `-` or `+`: the first call strips
    the flag, the later calls get the string with the flag still in front. */
module GetoptFlag {
  import opened Getopt

  /** All calls of a run, with the caller's unchanged option string [flag] + os. */
  function FlaggedRun(ord: Ordering, flag: char, os: string, argv: seq<string>): (seq<Ret>, State)
    requires argv != []
  {
    StepAdvances(ord, os, Start(argv));
    var (t, r) := Step(ord, os, Start(argv));
    if r.End? then ([], t)
    else var (rets, u) := Run(ord, [flag] + os, t); ([r] + rets, u)
  }

  // ----------------------------------------------- the condition on the command line

  /** The flag as an option of its own: it takes the colons that os begins with. */
  function FlagKind(os: string): Kind {
    if CharAt(os, 0) != ':' then NoArg else if CharAt(os, 1) == ':' then Optional else Required
  }

  /** Kinds that are read alike where `rest` follows in the element and `next` is the
      argument behind it. */
  predicate KindsAlike(k: Kind, l: Kind, rest: string, next: Maybe<string>) {
    || k == l
    || (k.NoArg? && l.Optional? && rest == "")
    || (k.Optional? && l.NoArg? && rest == "")
    || (k.Required? && l.Optional? && rest != "")
    || (k.Optional? && l.Required? && rest != "")
    || (k.Unknown? && l.Required? && rest == "" && next.None?)
  }

  /** One option character means the same with the flag in front: its argument is not
      missing where a colon should make that show, and the flag itself is an option
      that is read as it would be without. */
  predicate CharAlike(flag: char, os: string, c: char, rest: string, next: Maybe<string>) {
    && !(KindOf(os, c).Required? && rest == "" && next.None? && CharAt(os, 0) == ':')
    && (c == flag ==> KindsAlike(KindOf(os, c), FlagKind(os), rest, next))
  }

  /** All option characters of the line do, up to where the scan stops. */
  predicate LineAlike(ord: Ordering, flag: char, os: string, args: seq<string>)
    decreases |args|, 1, 0
  {
    if args == [] || args[0] == "--" then true
    else if NonOption(args[0]) then ord == ReturnInOrder ==> LineAlike(ord, flag, os, args[1..])
    else ElementAlike(ord, flag, os, args[0][1..], args)
  }

  /** The characters left in the element args[0], and the line behind it. */
  predicate ElementAlike(ord: Ordering, flag: char, os: string, chars: string, args: seq<string>)
    requires args != []
    decreases |args|, 0, |chars|, 1
  {
    if chars == "" then LineAlike(ord, flag, os, args[1..])
    else CharAlike(flag, os, chars[0], chars[1..], FirstOf(args[1..])) && BehindChar(ord, flag, os, chars, args)
  }

  /** What is behind the first of the characters. */
  predicate BehindChar(ord: Ordering, flag: char, os: string, chars: string, args: seq<string>)
    requires args != [] && chars != ""
    decreases |args|, 0, |chars|, 0
  {
    match KindOf(os, chars[0])
    case Optional => LineAlike(ord, flag, os, args[1..])
    case Required => LineAlike(ord, flag, os, args[(if chars[1..] == "" && |args| > 1 then 2 else 1)..])
    case _ => ElementAlike(ord, flag, os, chars[1..], args)
  }

  /** The condition, on the arguments of the whole run: the first call is left out. */
  predicate AlikeBehindFirst(ord: Ordering, flag: char, os: string, args: seq<string>) {
    if args == [] || args[0] == "--" then true
    else if NonOption(args[0]) then ord == ReturnInOrder ==> LineAlike(ord, flag, os, args[1..])
    else args[0][1..] == "" || BehindChar(ord, flag, os, args[0][1..], args)
  }

  // ------------------------------------------------------------------------ one call

  lemma FlaggedKind(flag: char, os: string, c: char)
    requires flag == '-' || flag == '+'
    ensures KindOf([flag] + os, c) == if c == flag then FlagKind(os) else KindOf(os, c)
    ensures MissingCode([flag] + os) == '?'
  {
    FlagChangesOnlyItself(flag, os, c);
    var f := [flag] + os;
    assert CharAt(f, 1) == CharAt(os, 0) && CharAt(f, 2) == CharAt(os, 1);
  }

  lemma ShortAlikeIff(flag: char, os: string, s: State)
    requires flag == '-' || flag == '+'
    requires Valid(s) && s.nextchar != ""
    ensures var args := s.argv[s.optind..];
      var alike := CharAlike(flag, os, s.nextchar[0], s.nextchar[1..], FirstOf(args[1..]));
      && (Short(os, s).1 == Short([flag] + os, s).1 <==> alike)
      && (alike ==> Short(os, s) == Short([flag] + os, s))
  {
    hide KindOf;
    var c := s.nextchar[0];
    FlaggedKind(flag, os, c);
    NotColon(os, c);
  }

  lemma NotColon(os: string, c: char)
    ensures MissingCode(os) == if CharAt(os, 0) == ':' then ':' else '?'
  {
  }

  predicate PendingAlike(ord: Ordering, flag: char, os: string, s: State)
    requires Valid(s)
  {
    var args := s.argv[s.optind..];
    if s.nextchar != "" then ElementAlike(ord, flag, os, s.nextchar, args) else LineAlike(ord, flag, os, args)
  }

  lemma ElementOver(ord: Ordering, flag: char, os: string, args: seq<string>)
    requires args != []
    ensures ElementAlike(ord, flag, os, "", args) == LineAlike(ord, flag, os, args[1..])
  {
    hide LineAlike;
  }

  /** The condition behind an option character is the condition on what is pending
      after the call that reads it. */
  lemma BehindCharIsPending(ord: Ordering, flag: char, os: string, s: State)
    requires Valid(s) && s.nextchar != ""
    ensures var t := Short(os, s).0;
      Valid(t) && BehindChar(ord, flag, os, s.nextchar, s.argv[s.optind..]) == PendingAlike(ord, flag, os, t)
  {
    hide KindOf, ElementAlike, LineAlike, Reads;
    ShortReads(os, s);
    var t := Short(os, s).0;
    var args := s.argv[s.optind..];
    ElementOver(ord, flag, os, args);
    assert args[1..] == s.argv[s.optind + 1..];
    assert |args| > 1 ==> args[2..] == s.argv[s.optind + 2..];
    assert t.argv == s.argv;
  }

  /** What a call that does not permute does before it looks at option characters. */
  lemma AdvanceInOrder(ord: Ordering, flag: char, os: string, s: State)
    requires Valid(s) && s.nextchar == "" && s.first == s.last && ord != Permute
    ensures var (t, r) := Advance(ord, s);
      var args := s.argv[s.optind..];
      match r
      case None => Valid(t) && t.nextchar != "" && t.first == t.last && t == s.(nextchar := args[0][1..]) && args != []
                   && args[0] != "--" && !NonOption(args[0])
      case Some(End) => args == [] || args[0] == "--" || (NonOption(args[0]) && ord == RequireOrder)
      case Some(_) => Valid(t) && t.nextchar == "" && t.first == t.last && t == s.(optind := s.optind + 1) && args != []
                      && args[0] != "--" && NonOption(args[0]) && ord == ReturnInOrder && r.value == Plain(args[0])
  {
  }

  lemma {:induction false} RunAlikeIff(ord: Ordering, flag: char, os: string, s: State)
    requires flag == '-' || flag == '+'
    requires Valid(s) && s.first == s.last && ord != Permute
    ensures Run(ord, os, s).0 == Run(ord, [flag] + os, s).0 <==> PendingAlike(ord, flag, os, s)
    ensures PendingAlike(ord, flag, os, s) ==> Run(ord, os, s) == Run(ord, [flag] + os, s)
    decreases |s.argv| - s.optind, if s.nextchar == "" then 1 else 0, |s.nextchar|
  {
    hide KindOf, Short, Advance, CharAlike, BehindChar;
    StepAdvances(ord, os, s);
    StepAdvances(ord, [flag] + os, s);
    if s.nextchar != "" {
      RunShortAlike(ord, flag, os, s, s);
    } else {
      AdvanceInOrder(ord, flag, os, s);
      var (t, r) := Advance(ord, s);
      if r.None? {
        RunShortAlike(ord, flag, os, s, t);
      } else if !r.value.End? {
        RunAlikeIff(ord, flag, os, t);
        assert s.argv[s.optind..][1..] == t.argv[t.optind..];
        HeadTail(r.value, Run(ord, os, t).0, r.value, Run(ord, [flag] + os, t).0);
      }
    }
  }

  lemma HeadTail(r: Ret, rets: seq<Ret>, r': Ret, rets': seq<Ret>)
    ensures [r] + rets == [r'] + rets' <==> r == r' && rets == rets'
  {
    assert ([r] + rets)[1..] == rets && ([r'] + rets')[1..] == rets';
    assert ([r] + rets)[0] == r && ([r'] + rets')[0] == r';
  }

  /** The case of an option character, read from m, the state s or s advanced. */
  lemma {:induction false} RunShortAlike(ord: Ordering, flag: char, os: string, s: State, m: State)
    requires flag == '-' || flag == '+'
    requires Valid(s) && s.first == s.last && ord != Permute
    requires Valid(m) && m.nextchar != "" && m.first == m.last && m.optind == s.optind && m.argv == s.argv
    requires Step(ord, os, s) == Short(os, m) && Step(ord, [flag] + os, s) == Short([flag] + os, m)
    requires s.nextchar == "" || m == s
    ensures Run(ord, os, s).0 == Run(ord, [flag] + os, s).0 <==> PendingAlike(ord, flag, os, m)
    ensures PendingAlike(ord, flag, os, m) ==> Run(ord, os, s) == Run(ord, [flag] + os, s)
    decreases |s.argv| - s.optind, if s.nextchar == "" then 1 else 0, |s.nextchar|, 0
  {
    hide KindOf, Short, CharAlike, BehindChar;
    var fl := [flag] + os;
    StepAdvances(ord, os, s);
    StepAdvances(ord, fl, s);
    ShortReads(os, m);
    ShortReads(fl, m);
    ShortAlikeIff(flag, os, m);
    BehindCharIsPending(ord, flag, os, m);
    var (t, r) := Short(os, m);
    var (t', r') := Short(fl, m);
    HeadTail(r, Run(ord, os, t).0, r', Run(ord, fl, t').0);
    if r == r' {
      RunAlikeIff(ord, flag, os, t);
    }
  }

  // ----------------------------------------------------------------------- whole runs

  /** A run with a flagged option string returns what the flagless one would, exactly
      when every option character behind the first call is read alike; then `argv`
      and the scanner end alike too. */
  lemma FlaggedRunIff(ord: Ordering, flag: char, os: string, argv: seq<string>)
    requires argv != [] && ((flag == '-' && ord == ReturnInOrder) || (flag == '+' && ord == RequireOrder))
    ensures FlaggedRun(ord, flag, os, argv).0 == Run(ord, os, Start(argv)).0
      <==> AlikeBehindFirst(ord, flag, os, argv[1..])
    ensures AlikeBehindFirst(ord, flag, os, argv[1..]) ==> FlaggedRun(ord, flag, os, argv) == Run(ord, os, Start(argv))
  {
    hide KindOf, Short, Advance, CharAlike, BehindChar;
    var s := Start(argv);
    StepAdvances(ord, os, s);
    AdvanceInOrder(ord, flag, os, s);
    var (m, r) := Advance(ord, s);
    var args := argv[1..];
    if r.None? {
      ShortReads(os, m);
      BehindCharIsPending(ord, flag, os, m);
      var (t, r1) := Short(os, m);
      RunAlikeIff(ord, flag, os, t);
      HeadTail(r1, Run(ord, os, t).0, r1, Run(ord, [flag] + os, t).0);
    } else if !r.value.End? {
      RunAlikeIff(ord, flag, os, m);
      assert args[1..] == m.argv[m.optind..];
      HeadTail(r.value, Run(ord, os, m).0, r.value, Run(ord, [flag] + os, m).0);
    }
  }

  /** RETURN_IN_ORDER, which a `-` asks for: the run reads the command line as it
      means without the flag exactly under that condition. */
  lemma DashRunIff(os: string, argv: seq<string>)
    requires argv != []
    ensures FlaggedRun(ReturnInOrder, '-', os, argv).0 == Parse(os, argv[1..]).rets
      <==> AlikeBehindFirst(ReturnInOrder, '-', os, argv[1..])
  {
    FlaggedRunIff(ReturnInOrder, '-', os, argv);
    RunInOrder(os, Start(argv));
  }

  /** The results before the first non-option. */
  function UpToPlain(rets: seq<Ret>): seq<Ret> {
    if rets == [] || rets[0].Plain? then [] else [rets[0]] + UpToPlain(rets[1..])
  }

  lemma {:induction false} OptionsAreAll(rets: seq<Ret>)
    ensures |Options(rets)| <= |rets|
    ensures rets == Options(rets) ==> forall i | 0 <= i < |rets| :: !rets[i].Plain?
    decreases |rets|
  {
    if rets != [] {
      OptionsAreAll(rets[1..]);
      if rets == Options(rets) {
        assert !rets[0].Plain?;
        assert Options(rets)[1..] == Options(rets[1..]);
        assert forall i | 1 <= i < |rets| :: rets[i] == rets[1..][i - 1];
      }
    }
  }

  lemma {:induction false} UpToPlainOf(a: seq<Ret>, b: seq<Ret>)
    requires (forall i | 0 <= i < |a| :: !a[i].Plain?) && (b == [] || b[0].Plain?)
    ensures UpToPlain(a + b) == a
    decreases |a|
  {
    if a == [] {
      assert a + b == b;
    } else {
      assert (a + b)[1..] == a[1..] + b;
      UpToPlainOf(a[1..], b);
    }
  }

  lemma StoppedIsUpToPlain(os: string, s: State, rets: seq<Ret>, t: State)
    requires Valid(s) && StoppedAtPlain(os, s, rets, t)
    ensures rets == UpToPlain(Pending(os, s).rets)
  {
    hide Pending;
    OptionsAreAll(rets);
    if t.optind < |t.argv| && rets != Pending(os, s).rets {
      var later := t.argv[t.optind..];
      assert later[0] != "--" && Parse(os, later).rets[0] == Plain(later[0]);
      UpToPlainOf(rets, Parse(os, later).rets);
    } else {
      UpToPlainOf(rets, []);
      assert rets + [] == rets;
    }
  }

  /** REQUIRE_ORDER, which a `+` asks for: likewise up to the first non-option. */
  lemma PlusRunIff(os: string, argv: seq<string>)
    requires argv != []
    ensures FlaggedRun(RequireOrder, '+', os, argv).0 == UpToPlain(Parse(os, argv[1..]).rets)
      <==> AlikeBehindFirst(RequireOrder, '+', os, argv[1..])
  {
    FlaggedRunIff(RequireOrder, '+', os, argv);
    RunRequireOrder(os, Start(argv));
    var (rets, t) := Run(RequireOrder, os, Start(argv));
    StoppedIsUpToPlain(os, Start(argv), rets, t);
  }

  // ------------------------------------------------- runs with the caller's option string

  lemma CalledIsFlagged(flag: char, os: string, posixlyCorrect: bool, argv: seq<string>)
    requires argv != [] && (flag == '-' || flag == '+')
    ensures Called([flag] + os, posixlyCorrect, argv)
         == FlaggedRun(if flag == '-' then ReturnInOrder else RequireOrder, flag, os, argv)
  {
    hide Step, Run;
    assert ([flag] + os)[1..] == os;
  }

  lemma CalledUnflagged(os: string, posixlyCorrect: bool, argv: seq<string>)
    requires argv != [] && CharAt(os, 0) != '-' && CharAt(os, 0) != '+'
    ensures Called(os, posixlyCorrect, argv) == Run(if posixlyCorrect then RequireOrder else Permute, os, Start(argv))
  {
    hide Step;
  }

  /** What a caller gets who calls getopt until it returns -1.  Without a flag and
      POSIXLY_CORRECT: the options, and the vector sorted. */
  lemma CalledPermutes(os: string, argv: seq<string>)
    requires argv != [] && (os != "" ==> os[0] != '-' && os[0] != '+')
    ensures var (rets, t) := Called(os, false, argv);
      var p := Parse(os, argv[1..]);
      && rets == Options(p.rets)
      && t.argv == [argv[0]] + p.opts + (p.plains + p.rest)
      && t.optind == 1 + |p.opts|
  {
    CalledUnflagged(os, false, argv);
    PermuteRun(os, argv);
  }

  /** Without a flag, where POSIXLY_CORRECT is set: what comes before the first non-option. */
  lemma CalledStops(os: string, argv: seq<string>)
    requires argv != [] && (os != "" ==> os[0] != '-' && os[0] != '+')
    ensures var (rets, t) := Called(os, true, argv);
      rets == UpToPlain(Parse(os, argv[1..]).rets) && t.argv == argv
  {
    CalledUnflagged(os, true, argv);
    RunRequireOrder(os, Start(argv));
    var (rets, t) := Run(RequireOrder, os, Start(argv));
    StoppedIsUpToPlain(os, Start(argv), rets, t);
  }

  /** With a `-`: everything in order, on the command lines that are read alike. */
  lemma CalledInOrderIff(os: string, posixlyCorrect: bool, argv: seq<string>)
    requires argv != []
    ensures Called("-" + os, posixlyCorrect, argv).0 == Parse(os, argv[1..]).rets
      <==> AlikeBehindFirst(ReturnInOrder, '-', os, argv[1..])
  {
    CalledIsFlagged('-', os, posixlyCorrect, argv);
    DashRunIff(os, argv);
  }

  /** With a `+`: what comes before the first non-option, likewise. */
  lemma CalledStopsIff(os: string, posixlyCorrect: bool, argv: seq<string>)
    requires argv != []
    ensures Called("+" + os, posixlyCorrect, argv).0 == UpToPlain(Parse(os, argv[1..]).rets)
      <==> AlikeBehindFirst(RequireOrder, '+', os, argv[1..])
  {
    CalledIsFlagged('+', os, posixlyCorrect, argv);
    PlusRunIff(os, argv);
  }

  // ---------------------------------------------------------------------- two failures

  /** The second call takes the dash in -a- for an option. */
  lemma FlagIsTakenForAnOption()
    ensures FlaggedRun(ReturnInOrder, '-', "a", ["p", "-a-"]).0 != Parse("a", ["-a-"]).rets
  {
    var args := ["-a-"];
    assert ["p", "-a-"][1..] == args;
    assert args[0][1..] == "a-" && "a-"[1..] == "-";
    assert Index("a", 'a', 0) == 0 && Index("a", '-', 1) == 1;
    assert !CharAlike('-', "a", '-', "", FirstOf(args[1..]));
    assert "-"[1..] == "";
    assert !ElementAlike(ReturnInOrder, '-', "a", "-", args);
    DashRunIff("a", ["p", "-a-"]);
  }

  /** The colon that tells a missing argument from an unknown option is not at the
      front any more: the second call returns ? for the missing argument of a. */
  lemma ColonIsLost()
    ensures FlaggedRun(ReturnInOrder, '-', ":a:b", ["p", "-b", "-a"]).0 != Parse(":a:b", ["-b", "-a"]).rets
  {
    var os, args := ":a:b", ["-b", "-a"];
    assert ["p", "-b", "-a"][1..] == args;
    assert args[0][1..] == "b" && "b"[1..] == "";
    assert Index(os, 'b', 3) == 3 && Index(os, 'b', 2) == 3 && Index(os, 'b', 1) == 3;
    assert Index(os, 'a', 1) == 1;
    var last := args[1..];
    assert last[0][1..] == "a" && "a"[1..] == "";
    assert !CharAlike('-', os, 'a', "", FirstOf(last[1..]));
    assert !ElementAlike(ReturnInOrder, '-', os, "a", last);
    assert !LineAlike(ReturnInOrder, '-', os, last);
    assert ElementAlike(ReturnInOrder, '-', os, "", args) == LineAlike(ReturnInOrder, '-', os, last);
    DashRunIff(os, ["p", "-b", "-a"]);
  }
}
