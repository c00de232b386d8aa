/** GNU getopt for short options: libs/kpathsea/getopt.c.  One call is the
    function `Step` on the scanner's static state; whole runs are compared with
    `Parse`, which reads the arguments in order and permutes nothing. */
module Getopt {

  datatype Maybe<+T> = None | Some(value: T)

  datatype Ordering = RequireOrder | Permute | ReturnInOrder

  /** What a call returns: -1, code 1 with a non-option, an option with its
      argument, or an error with `optopt` and the code returned. */
  datatype Ret =
    | End
    | Plain(arg: string)
    | Opt(c: char, optarg: Maybe<string>)
    | Bad(optopt: char, code: char)

  /** `optind`, `nextchar`, `first_nonopt`, `last_nonopt` and the vector. */
  datatype State = State(argv: seq<string>, optind: nat, nextchar: string, first: nat, last: nat)

  /** The state between calls; an exhausted `nextchar` is the empty string. */
  predicate Valid(s: State) {
    && 1 <= s.first <= s.last <= s.optind <= |s.argv|
    && (s.nextchar != "" ==> s.optind < |s.argv|)
  }

  /** What a call needs.  `optind` may have been moved back by the caller. */
  predicate Callable(s: State) {
    s.first <= s.last && s.optind <= |s.argv| && (s.nextchar != "" ==> s.optind < |s.argv|)
  }

  // ----------------------------------------------------- the option characters

  datatype Kind = Unknown | NoArg | Required | Optional

  function CharAt(s: string, i: nat): char {
    if i < |s| then s[i] else '\0'
  }

  /** `my_index`: the first occurrence, or the length. */
  function Index(s: string, c: char, from: nat): (i: nat)
    requires from <= |s|
    ensures from <= i <= |s|
    decreases |s| - from
  {
    if from < |s| && s[from] != c then Index(s, c, from + 1) else from
  }

  function KindOf(os: string, c: char): Kind {
    var t := Index(os, c, 0);
    if t == |os| || c == ':' then Unknown
    else if CharAt(os, t + 1) != ':' then NoArg
    else if CharAt(os, t + 2) == ':' then Optional
    else Required
  }

  predicate NonOption(a: string) {
    CharAt(a, 0) != '-' || CharAt(a, 1) == '\0'
  }

  function MissingCode(os: string): char {
    if CharAt(os, 0) == ':' then ':' else '?'
  }

  // ---------------------------------------------- reading in order: the meaning

  /** One option element: `chars` still to be read, `next` the argument after
      it.  Yields what is returned, and how many further arguments it uses. */
  function Element(os: string, chars: string, next: Maybe<string>): (r: (seq<Ret>, nat))
    ensures r.1 <= 1 && (next.None? ==> r.1 == 0) && |r.0| <= |chars|
    decreases |chars|
  {
    if chars == "" then ([], 0)
    else
      var c, rest := chars[0], chars[1..];
      match KindOf(os, c)
      case Unknown => var (rets, used) := Element(os, rest, next); ([Bad(c, '?')] + rets, used)
      case NoArg => var (rets, used) := Element(os, rest, next); ([Opt(c, None)] + rets, used)
      case Optional => ([Opt(c, if rest == "" then None else Some(rest))], 0)
      case Required =>
        if rest != "" then ([Opt(c, Some(rest))], 0)
        else if next.None? then ([Bad(c, MissingCode(os))], 0)
        else ([Opt(c, Some(next.value))], 1)
  }

  /** What a command line means: results in order, option elements with their
      arguments and `--`, non-options before and after `--`. */
  datatype Parsed = Parsed(rets: seq<Ret>, opts: seq<string>, plains: seq<string>, rest: seq<string>)

  function FirstOf(args: seq<string>): Maybe<string> {
    if args == [] then None else Some(args[0])
  }

  function Parse(os: string, args: seq<string>): Parsed
    decreases |args|
  {
    if args == [] then Parsed([], [], [], [])
    else if args[0] == "--" then Parsed([], ["--"], [], args[1..])
    else if NonOption(args[0]) then
      var p := Parse(os, args[1..]);
      p.(rets := [Plain(args[0])] + p.rets, plains := [args[0]] + p.plains)
    else
      ParseElement(os, args[0][1..], args)
  }

  /** The rest of the option element args[0], then the rest of the line. */
  function ParseElement(os: string, chars: string, args: seq<string>): Parsed
    requires args != []
    decreases |args|, 0
  {
    var (rets, used) := Element(os, chars, FirstOf(args[1..]));
    var p := Parse(os, args[1 + used..]);
    p.(rets := rets + p.rets, opts := args[..1 + used] + p.opts)
  }

  /** Results without the non-options. */
  function Options(rets: seq<Ret>): seq<Ret> {
    if rets == [] then []
    else (if rets[0].Plain? then [] else [rets[0]]) + Options(rets[1..])
  }

  // --------------------------------------------------------------- one call

  function Exchanged(s: State): State
    requires s.first <= s.last <= s.optind <= |s.argv|
  {
    State(s.argv[..s.first] + s.argv[s.last..s.optind] + s.argv[s.first..s.last] + s.argv[s.optind..],
          s.optind, s.nextchar, s.first + (s.optind - s.last), s.optind)
  }

  function SkipPlain(argv: seq<string>, i: nat): (j: nat)
    requires i <= |argv|
    ensures i <= j <= |argv|
    decreases |argv| - i
  {
    if i < |argv| && NonOption(argv[i]) then SkipPlain(argv, i + 1) else i
  }

  /** Bringing `first_nonopt` and `last_nonopt` back within `optind`. */
  function Clamped(s: State): State {
    var last := if s.last > s.optind then s.optind else s.last;
    var first := if s.first > s.optind then s.optind else s.first;
    s.(first := first, last := last)
  }

  /** PERMUTE: move the options scanned last before the non-options, then skip
      further non-options. */
  function Permuted(s: State): State
    requires s.first <= s.last <= s.optind <= |s.argv|
  {
    var m := if s.first != s.last && s.last != s.optind then Exchanged(s)
             else if s.last != s.optind then s.(first := s.optind)
             else s;
    var i := SkipPlain(m.argv, m.optind);
    m.(optind := i, last := i)
  }

  /** `--` ends the options; it is moved like an option. */
  function AfterDashes(s: State): State
    requires s.first <= s.last <= s.optind < |s.argv|
  {
    var t := s.(optind := s.optind + 1);
    var m := if t.first != t.last && t.last != t.optind then Exchanged(t)
             else if t.first == t.last then t.(first := t.optind)
             else t;
    m.(last := |s.argv|, optind := |s.argv|)
  }

  /** What stands at `optind` when any permuting is done. */
  function Found(ord: Ordering, s: State): (r: (State, Maybe<Ret>))
    requires s.optind <= |s.argv|
    ensures |r.0.argv| == |s.argv|
    ensures r.1.None? ==> r.0.nextchar != "" && r.0.optind < |r.0.argv|
  {
    if s.optind == |s.argv| then
      (s.(optind := if s.first != s.last then s.first else s.optind), Some(End))
    else if NonOption(s.argv[s.optind]) then
      if ord == RequireOrder then (s, Some(End))
      else (s.(optind := s.optind + 1), Some(Plain(s.argv[s.optind])))
    else
      (s.(nextchar := s.argv[s.optind][1..]), None)
  }

  /** Moving to the next element: the state and, unless an option element was
      found (its characters are then in nextchar), the result. */
  function Advance(ord: Ordering, s: State): (r: (State, Maybe<Ret>))
    requires Callable(s)
    ensures |r.0.argv| == |s.argv|
    ensures r.1.None? ==> r.0.nextchar != "" && r.0.optind < |r.0.argv|
  {
    var s1 := Clamped(s);
    var s2 := if ord == Permute then Permuted(s1) else s1;
    Found(ord, if s2.optind != |s2.argv| && s2.argv[s2.optind] == "--" then AfterDashes(s2) else s2)
  }

  /** The next option character. */
  function Short(os: string, s: State): (State, Ret)
    requires s.nextchar != "" && s.optind < |s.argv|
  {
    var c, rest := s.nextchar[0], s.nextchar[1..];
    var i := if rest == "" then s.optind + 1 else s.optind;
    match KindOf(os, c)
    case Unknown => (s.(nextchar := rest, optind := i), Bad(c, '?'))
    case NoArg => (s.(nextchar := rest, optind := i), Opt(c, None))
    case Optional =>
      if rest != "" then (s.(nextchar := "", optind := i + 1), Opt(c, Some(rest)))
      else (s.(nextchar := "", optind := i), Opt(c, None))
    case Required =>
      if rest != "" then (s.(nextchar := "", optind := i + 1), Opt(c, Some(rest)))
      else if i == |s.argv| then (s.(nextchar := "", optind := i), Bad(c, MissingCode(os)))
      else (s.(nextchar := "", optind := i + 1), Opt(c, Some(s.argv[i])))
  }

  function Step(ord: Ordering, os: string, s: State): (State, Ret)
    requires Callable(s)
  {
    if s.nextchar != "" then Short(os, s)
    else
      var (t, r) := Advance(ord, s);
      if r.Some? then (t, r.value) else Short(os, t)
  }

  // ------------------------------------------------------------ what a call keeps

  /** What is still to come. */
  function Pending(os: string, s: State): Parsed
    requires s.optind <= |s.argv| && (s.nextchar != "" ==> s.optind < |s.argv|)
  {
    var args := s.argv[s.optind..];
    if s.nextchar != "" then ParseElement(os, s.nextchar, args) else Parse(os, args)
  }

  function OptsSoFar(s: State): seq<string>
    requires Valid(s)
  {
    s.argv[1..s.first] + s.argv[s.last..s.optind]
  }

  function PlainsSoFar(s: State): seq<string>
    requires Valid(s)
  {
    s.argv[s.first..s.last]
  }

  /** From s to t the scanner has read r and moved past some elements. */
  predicate Reads(os: string, s: State, t: State, r: Ret)
    requires Valid(s) && Valid(t)
  {
    var p, q := Pending(os, s), Pending(os, t);
    && t.argv == s.argv && t.first == s.first && t.last == s.last && s.optind <= t.optind
    && p.rets == [r] + q.rets && p.plains == q.plains && p.rest == q.rest
    && p.opts == s.argv[s.optind..t.optind] + q.opts
  }

  lemma ShortContinues(os: string, s: State)
    requires Valid(s) && |s.nextchar| > 1
    requires KindOf(os, s.nextchar[0]).Unknown? || KindOf(os, s.nextchar[0]).NoArg?
    ensures var (t, r) := Short(os, s); Valid(t) && Reads(os, s, t, r)
  {
    var (t, r) := Short(os, s);
    var args := s.argv[s.optind..];
    var (rets, used) := Element(os, s.nextchar[1..], FirstOf(args[1..]));
    var rets' := Parse(os, args[1 + used..]).rets;
    assert ([r] + rets) + rets' == [r] + (rets + rets');
    assert s.argv[s.optind..t.optind] == [];
  }

  lemma ShortFinishes(os: string, s: State)
    requires Valid(s) && s.nextchar != ""
    requires |s.nextchar| == 1 || KindOf(os, s.nextchar[0]).Optional? || KindOf(os, s.nextchar[0]).Required?
    ensures var (t, r) := Short(os, s); Valid(t) && Reads(os, s, t, r)
  {
    var (t, r) := Short(os, s);
    var args := s.argv[s.optind..];
    var (rets, used) := Element(os, s.nextchar, FirstOf(args[1..]));
    ElementFinishes(os, s.nextchar, FirstOf(args[1..]));
    assert t.optind == s.optind + 1 + used;
    assert args[1 + used..] == t.argv[t.optind..];
    assert s.argv[s.optind..t.optind] == args[..1 + used];
    assert t.nextchar == "" && rets == [r];
  }

  lemma ElementFinishes(os: string, chars: string, next: Maybe<string>)
    requires chars != ""
    requires |chars| == 1 || KindOf(os, chars[0]).Optional? || KindOf(os, chars[0]).Required?
    ensures |Element(os, chars, next).0| == 1
  {
    if |chars| == 1 {
      assert chars[1..] == "";
    }
  }

  /** Reading one option character consumes one pending result. */
  lemma ShortReads(os: string, s: State)
    requires Valid(s) && s.nextchar != ""
    ensures var (t, r) := Short(os, s);
            Valid(t) && Reads(os, s, t, r) && !r.End? && !r.Plain?
  {
    if |s.nextchar| > 1 && (KindOf(os, s.nextchar[0]).Unknown? || KindOf(os, s.nextchar[0]).NoArg?) {
      ShortContinues(os, s);
    } else {
      ShortFinishes(os, s);
    }
  }

  // --------------------------------------------------------------- PERMUTE

  /** The scan of t goes on where that of s stood, in PERMUTE's terms: options
      in front in order, then non-options in order, then what is unread. */
  predicate Preserves(os: string, s: State, t: State, read: seq<Ret>)
    requires Valid(s) && Valid(t)
  {
    var p, q := Pending(os, s), Pending(os, t);
    && |t.argv| == |s.argv| && t.argv[0] == s.argv[0]
    && Options(p.rets) == read + Options(q.rets)
    && OptsSoFar(s) + p.opts == OptsSoFar(t) + q.opts
    && PlainsSoFar(s) + p.plains + p.rest == PlainsSoFar(t) + q.plains + q.rest
  }

  lemma ExchangedKeeps(os: string, s: State)
    requires Valid(s) && s.nextchar == ""
    ensures var t := Exchanged(s);
            Valid(t) && Preserves(os, s, t, []) && t.argv[t.optind..] == s.argv[s.optind..] && t.last == t.optind
  {
    var t := Exchanged(s);
    assert |t.argv| == |s.argv|;
    assert t.argv[t.optind..] == s.argv[s.optind..];
    assert t.argv[1..t.first] == s.argv[1..s.first] + s.argv[s.last..s.optind];
    assert t.argv[t.first..t.last] == s.argv[s.first..s.last];
    assert t.argv[t.last..t.optind] == [];
  }

  lemma SkipOneKeeps(os: string, s: State)
    requires Valid(s) && s.nextchar == "" && s.last == s.optind < |s.argv| && NonOption(s.argv[s.optind])
    ensures var m := s.(optind := s.optind + 1, last := s.optind + 1); Valid(m) && Preserves(os, s, m, [])
  {
    hide ParseElement, KindOf, NonOption;
    var m := s.(optind := s.optind + 1, last := s.optind + 1);
    var args := s.argv[s.optind..];
    assert args[1..] == m.argv[m.optind..];
    assert args[0] != "--" by { DashesAreNoPlain(); }
    var p := Parse(os, args[1..]);
    assert ([Plain(args[0])] + p.rets)[1..] == p.rets && [] + Options(p.rets) == Options(p.rets);
    assert PlainsSoFar(m) == PlainsSoFar(s) + [args[0]];
    assert OptsSoFar(m) == OptsSoFar(s);
    assert PlainsSoFar(s) + ([args[0]] + p.plains) == PlainsSoFar(m) + p.plains;
  }

  lemma DashesAreNoPlain()
    ensures !NonOption("--")
  {
  }

  lemma PreservesTrans(os: string, s: State, m: State, t: State)
    requires Valid(s) && Valid(m) && Valid(t) && Preserves(os, s, m, []) && Preserves(os, m, t, [])
    ensures Preserves(os, s, t, [])
  {
  }

  /** Skipping non-options moves them from the unread to the skipped ones. */
  lemma {:induction false} SkipKeeps(os: string, s: State, i: nat)
    requires Valid(s) && s.nextchar == "" && s.last == s.optind
    requires i == SkipPlain(s.argv, s.optind)
    ensures var t := s.(optind := i, last := i);
            Valid(t) && Preserves(os, s, t, [])
    decreases |s.argv| - s.optind
  {
    hide Preserves, NonOption;
    if s.optind < |s.argv| && NonOption(s.argv[s.optind]) {
      var m := s.(optind := s.optind + 1, last := s.optind + 1);
      SkipOneKeeps(os, s);
      SkipKeeps(os, m, i);
      PreservesTrans(os, s, m, s.(optind := i, last := i));
    } else {
      PreservesNothing(os, s);
    }
  }

  lemma PreservesNothing(os: string, s: State)
    requires Valid(s)
    ensures Preserves(os, s, s, [])
  {
    assert [] + Options(Pending(os, s).rets) == Options(Pending(os, s).rets);
  }

  lemma {:induction false} SkipStops(argv: seq<string>, i: nat)
    requires i <= |argv|
    ensures SkipPlain(argv, i) < |argv| ==> !NonOption(argv[SkipPlain(argv, i)])
    decreases |argv| - i
  {
    if i < |argv| && NonOption(argv[i]) {
      SkipStops(argv, i + 1);
    }
  }

  lemma PermutedKeeps(os: string, s: State)
    requires Valid(s) && s.nextchar == ""
    ensures var t := Permuted(s);
            Valid(t) && Preserves(os, s, t, []) && t.last == t.optind && t.nextchar == ""
            && (t.optind < |t.argv| ==> !NonOption(t.argv[t.optind]))
  {
    var m := if s.first != s.last && s.last != s.optind then Exchanged(s)
             else if s.last != s.optind then s.(first := s.optind, last := s.optind)
             else s;
    if s.first != s.last && s.last != s.optind {
      ExchangedKeeps(os, s);
    } else if s.last != s.optind {
      assert OptsSoFar(m) == OptsSoFar(s);
    }
    assert Valid(m) && Preserves(os, s, m, []);
    SkipKeeps(os, m, SkipPlain(m.argv, m.optind));
    SkipStops(m.argv, m.optind);
  }

  /** t is what s must end in: options and their arguments first, then the
      non-options, each in the order of the command line, `optind` between. */
  predicate Sorted(os: string, s: State, t: State)
    requires Valid(s)
  {
    var p := Pending(os, s);
    var opts := OptsSoFar(s) + p.opts;
    && t.argv == [s.argv[0]] + opts + (PlainsSoFar(s) + p.plains + p.rest)
    && t.optind == 1 + |opts| && Options(p.rets) == []
  }

  lemma EndIsSorted(os: string, s: State)
    requires Valid(s) && s.nextchar == "" && s.last == s.optind == |s.argv|
    ensures Sorted(os, s, s.(optind := s.first))
  {
    assert s.argv == [s.argv[0]] + s.argv[1..s.first] + s.argv[s.first..];
    assert s.argv[s.last..s.optind] == [];
    assert s.argv[s.optind..] == [];
  }

  lemma AfterDashesArgv(s: State)
    requires Valid(s) && s.last == s.optind < |s.argv| && s.argv[s.optind] == "--"
    ensures var t := AfterDashes(s);
            && t.optind == t.last == |t.argv| && t.first == s.first + 1
            && t.argv == [s.argv[0]] + s.argv[1..s.first] + ["--"] + s.argv[s.first..s.last] + s.argv[s.optind + 1..]
  {
  }

  lemma DashesAreSorted(os: string, s: State)
    requires Valid(s) && s.nextchar == "" && s.last == s.optind < |s.argv| && s.argv[s.optind] == "--"
    ensures var t := AfterDashes(s);
            t.optind == t.last == |t.argv| && t.first <= t.last && Sorted(os, s, t.(optind := t.first))
  {
    AfterDashesArgv(s);
    assert s.argv[s.optind..][1..] == s.argv[s.optind + 1..];
    assert OptsSoFar(s) == s.argv[1..s.first];
  }

  /** Moving on under PERMUTE: either the scan is over and the vector sorted,
      or an option element is next. */
  lemma AdvancePermutes(os: string, s: State)
    requires Valid(s) && s.nextchar == ""
    ensures var (t, r) := Advance(Permute, s);
            if r.Some? then r.value.End? && Sorted(os, s, t)
            else Valid(t) && Preserves(os, s, t, [])
  {
    var s2 := Permuted(s);
    PermutedKeeps(os, s);
    if s2.optind != |s2.argv| && s2.argv[s2.optind] == "--" {
      DashesAreSorted(os, s2);
      SortedTrans(os, s, s2, Advance(Permute, s).0);
    } else if s2.optind == |s2.argv| {
      EndIsSorted(os, s2);
      SortedTrans(os, s, s2, Advance(Permute, s).0);
    } else {
      var t := s2.(nextchar := s2.argv[s2.optind][1..]);
      assert Pending(os, t) == Pending(os, s2);
    }
  }

  lemma SortedTrans(os: string, s: State, m: State, t: State)
    requires Valid(s) && Valid(m) && Preserves(os, s, m, []) && Sorted(os, m, t)
    ensures Sorted(os, s, t)
  {
    assert [] + Options(Pending(os, m).rets) == Options(Pending(os, m).rets);
  }

  /** One call under PERMUTE. */
  lemma StepPermutes(os: string, s: State)
    requires Valid(s)
    ensures var (t, r) := Step(Permute, os, s);
            if r.End? then Sorted(os, s, t) else Valid(t) && !r.Plain? && Preserves(os, s, t, [r])
  {
    if s.nextchar != "" {
      ShortPreserves(os, s);
    } else {
      AdvancePermutes(os, s);
      var (m, r) := Advance(Permute, s);
      if r.None? {
        ShortPreserves(os, m);
        var t := Short(os, m).0;
        assert [] + Options(Pending(os, m).rets) == Options(Pending(os, m).rets);
      }
    }
  }

  lemma ShortPreserves(os: string, s: State)
    requires Valid(s) && s.nextchar != ""
    ensures var (t, r) := Short(os, s);
            Valid(t) && !r.End? && !r.Plain? && Preserves(os, s, t, [r])
  {
    ShortReads(os, s);
    var (t, r) := Short(os, s);
    var p, q := Pending(os, s), Pending(os, t);
    assert p.rets[1..] == q.rets;
    assert s.argv[s.last..t.optind] == s.argv[s.last..s.optind] + s.argv[s.optind..t.optind];
    assert OptsSoFar(s) + p.opts == OptsSoFar(t) + q.opts;
  }

  // -------------------------------------------------------------- whole runs

  /** Calling until -1: everything returned before it, and the final state. */
  function Run(ord: Ordering, os: string, s: State): (seq<Ret>, State)
    requires Valid(s)
    decreases |s.argv| - s.optind, if s.nextchar == "" then 1 else 0, |s.nextchar|
  {
    StepAdvances(ord, os, s);
    var (t, r) := Step(ord, os, s);
    if r.End? then ([], t)
    else var (rets, u) := Run(ord, os, t); ([r] + rets, u)
  }

  predicate Closer(s: State, t: State) {
    || s.optind < t.optind
    || (s.optind == t.optind && t.nextchar != "" && (s.nextchar == "" || |t.nextchar| < |s.nextchar|))
  }

  lemma ShortAdvances(os: string, s: State)
    requires Valid(s) && s.nextchar != ""
    ensures var t := Short(os, s).0;
            |t.argv| == |s.argv| && Valid(t) && Closer(s, t)
  {
    ShortReads(os, s);
  }

  lemma AdvanceAdvances(ord: Ordering, s: State)
    requires Valid(s) && s.nextchar == ""
    ensures var (t, r) := Advance(ord, s);
            && (r.Some? ==> r.value.End? || r.value.Plain?)
            && (r.Some? && !r.value.End? ==> Valid(t) && s.optind < t.optind)
            && (r.None? ==> Valid(t) && s.optind <= t.optind && t.nextchar != "")
  {
    if ord == Permute {
      PermutedKeeps("", s);
    }
  }

  /** Every call that returns something keeps 1 <= first_nonopt <= last_nonopt
      <= optind <= argc and gets closer to the end. */
  lemma StepAdvances(ord: Ordering, os: string, s: State)
    requires Valid(s)
    ensures var (t, r) := Step(ord, os, s);
            |t.argv| == |s.argv| && (!r.End? ==> Valid(t) && Closer(s, t))
  {
    if s.nextchar != "" {
      ShortAdvances(os, s);
    } else {
      AdvanceAdvances(ord, s);
      var (m, r) := Advance(ord, s);
      if r.None? {
        ShortAdvances(os, m);
      }
    }
  }

  function Start(argv: seq<string>): State {
    State(argv, 1, "", 1, 1)
  }

  function Onward(rets: seq<Ret>, run: (seq<Ret>, State)): (seq<Ret>, State) {
    (rets + run.0, run.1)
  }

  /** One more call of a run. */
  lemma RunOnward(ord: Ordering, os: string, s: State, rets: seq<Ret>)
    requires Valid(s)
    ensures var (t, r) := Step(ord, os, s);
      && (r.End? ==> Onward(rets, Run(ord, os, s)) == (rets, t))
      && (!r.End? ==> Valid(t) && Onward(rets, Run(ord, os, s)) == Onward(rets + [r], Run(ord, os, t)))
  {
    hide Step;
    StepAdvances(ord, os, s);
    var (t, r) := Step(ord, os, s);
    if r.End? {
      assert rets + [] == rets;
    } else {
      assert rets + ([r] + Run(ord, os, t).0) == (rets + [r]) + Run(ord, os, t).0;
    }
  }

  /** A caller may have moved `optind` back: the call is then that from the valid state in
      which the elements known to be non-options are those that are in front of it now. */
  lemma MovedBack(ord: Ordering, os: string, s: State)
    requires Callable(s) && s.nextchar == "" && 1 <= s.first && 1 <= s.optind
    ensures var t := Clamped(s);
      && Valid(t) && t.argv == s.argv && t.optind == s.optind
      && t.first == (if s.first < s.optind then s.first else s.optind)
      && t.last == (if s.last < s.optind then s.last else s.optind)
      && Step(ord, os, s) == Step(ord, os, t)
  {
    assert Clamped(Clamped(s)) == Clamped(s);
  }

  /** A whole PERMUTE run sorts the vector and returns the options in order. */
  lemma {:induction false} RunPermutes(os: string, s: State)
    requires Valid(s)
    ensures var (rets, t) := Run(Permute, os, s);
            var p := Pending(os, s);
            var opts := OptsSoFar(s) + p.opts;
            && rets == Options(p.rets)
            && t.argv == [s.argv[0]] + opts + (PlainsSoFar(s) + p.plains + p.rest)
            && t.optind == 1 + |opts|
    decreases |s.argv| - s.optind, if s.nextchar == "" then 1 else 0, |s.nextchar|
  {
    StepAdvances(Permute, os, s);
    StepPermutes(os, s);
    var (t, r) := Step(Permute, os, s);
    if !r.End? {
      RunPermutes(os, t);
    }
  }

  /** PERMUTE from the first call: results are the command line's options in
      order, the vector is the program name, the option elements with their
      arguments and `--`, then the non-options; `optind` is the first of these. */
  lemma PermuteRun(os: string, argv: seq<string>)
    requires argv != []
    ensures var (rets, t) := Run(Permute, os, Start(argv));
            var p := Parse(os, argv[1..]);
            && rets == Options(p.rets)
            && t.argv == [argv[0]] + p.opts + (p.plains + p.rest)
            && t.optind == 1 + |p.opts|
  {
    var s := Start(argv);
    RunPermutes(os, s);
    assert OptsSoFar(s) == [] && PlainsSoFar(s) == [];
    var p := Pending(os, s);
    assert [] + p.opts == p.opts && [] + p.plains == p.plains;
  }

  /** Nothing is lost or duplicated. */
  lemma {:induction false} ParseConserves(os: string, args: seq<string>)
    ensures var p := Parse(os, args);
            multiset(p.opts + (p.plains + p.rest)) == multiset(args)
    decreases |args|
  {
    if args != [] {
      assert args == [args[0]] + args[1..];
      if args[0] == "--" {
      } else if NonOption(args[0]) {
        ParseConserves(os, args[1..]);
        var p := Parse(os, args[1..]);
        SameWithMore([args[0]], p.opts, p.plains, p.rest, args[1..]);
      } else {
        var used := Element(os, args[0][1..], FirstOf(args[1..])).1;
        ParseConserves(os, args[1 + used..]);
        assert args == args[..1 + used] + args[1 + used..];
        var p := Parse(os, args[1 + used..]);
        SameWithMore(args[..1 + used], p.opts, p.plains, p.rest, args[1 + used..]);
      }
    }
  }

  lemma SameWithMore(more: seq<string>, a: seq<string>, b: seq<string>, c: seq<string>, args: seq<string>)
    requires multiset(a + (b + c)) == multiset(args)
    ensures multiset((more + a) + (b + c)) == multiset(more + args)
    ensures multiset(a + ((more + b) + c)) == multiset(more + args)
  {
    assert multiset((more + a) + (b + c)) == multiset(more) + multiset(a + (b + c));
    assert multiset(a + ((more + b) + c)) == multiset(more) + multiset(a + (b + c));
  }

  lemma SameWithHead(a: string, xs: seq<string>, ys: seq<string>, args: seq<string>)
    requires multiset(xs + ys) == multiset(args)
    ensures multiset([a] + xs + ys) == multiset([a] + args)
  {
    assert [a] + xs + ys == [a] + (xs + ys);
  }

  lemma PermuteConserves(os: string, argv: seq<string>)
    requires argv != []
    ensures var t := Run(Permute, os, Start(argv)).1;
            multiset(t.argv) == multiset(argv) && t.argv[0] == argv[0]
  {
    hide Run, Parse;
    PermuteRun(os, argv);
    ParseConserves(os, argv[1..]);
    var p := Parse(os, argv[1..]);
    SameWithHead(argv[0], p.opts, p.plains + p.rest, argv[1..]);
    assert argv == [argv[0]] + argv[1..];
  }

  // ------------------------------------------------- without permuting

  /** One call that does not permute. */
  lemma StepInOrder(ord: Ordering, os: string, s: State)
    requires Valid(s) && s.first == s.last && ord != Permute
    ensures var (t, r) := Step(ord, os, s);
            var p := Pending(os, s);
            && t.argv == s.argv
            && (if !r.End? then Valid(t) && t.first == t.last && p.rest == Pending(os, t).rest
                                && p.rets == [r] + Pending(os, t).rets && (r.Plain? ==> ord == ReturnInOrder)
                else if t.optind < |t.argv| && t.nextchar == "" && ord == RequireOrder && NonOption(t.argv[t.optind])
                  && p.rets != []
                then p.rets == Parse(os, t.argv[t.optind..]).rets
                else p.rets == [] && t.optind == |s.argv| - |p.rest|)
  {
    if s.nextchar != "" {
      ShortReads(os, s);
    } else if s.optind < |s.argv| {
      var args := s.argv[s.optind..];
      assert args[1..] == s.argv[s.optind + 1..];
      if args[0] != "--" && !NonOption(args[0]) {
        var m := s.(nextchar := args[0][1..]);
        assert Advance(ord, s) == (m, None);
        ShortReads(os, m);
      }
    }
  }

  /** RETURN_IN_ORDER returns everything in order and leaves the vector alone. */
  lemma {:induction false} RunInOrder(os: string, s: State)
    requires Valid(s) && s.first == s.last
    ensures var (rets, t) := Run(ReturnInOrder, os, s);
            var p := Pending(os, s);
            rets == p.rets && t.argv == s.argv && t.optind == |s.argv| - |p.rest|
    decreases |s.argv| - s.optind, if s.nextchar == "" then 1 else 0, |s.nextchar|
  {
    StepAdvances(ReturnInOrder, os, s);
    StepInOrder(ReturnInOrder, os, s);
    var (t, r) := Step(ReturnInOrder, os, s);
    if !r.End? {
      RunInOrder(os, t);
    }
  }

  /** `rets` is what comes before the first non-option, and t stopped there. */
  predicate StoppedAtPlain(os: string, s: State, rets: seq<Ret>, t: State)
    requires Valid(s)
  {
    var p := Pending(os, s);
    && t.argv == s.argv && rets == Options(rets)
    && (if t.optind < |t.argv| && rets != p.rets
        then NonOption(t.argv[t.optind]) && p.rets == rets + Parse(os, t.argv[t.optind..]).rets
        else rets == p.rets && t.optind == |s.argv| - |p.rest|)
  }

  lemma StoppedLater(os: string, s: State, m: State, r: Ret, rets: seq<Ret>, t: State)
    requires Valid(s) && Valid(m) && !r.Plain? && m.argv == s.argv
    requires Pending(os, s).rets == [r] + Pending(os, m).rets && Pending(os, s).rest == Pending(os, m).rest
    requires StoppedAtPlain(os, m, rets, t)
    ensures StoppedAtPlain(os, s, [r] + rets, t)
  {
    assert Options([r] + rets) == [r] + rets;
    assert ([r] + rets)[1..] == rets && Pending(os, s).rets[1..] == Pending(os, m).rets;
  }

  lemma StoppedNow(os: string, s: State)
    requires Valid(s) && s.first == s.last && Step(RequireOrder, os, s).1.End?
    ensures StoppedAtPlain(os, s, [], Step(RequireOrder, os, s).0)
  {
    StepInOrder(RequireOrder, os, s);
    var t := Step(RequireOrder, os, s).0;
    assert t.optind < |t.argv| ==> [] + Parse(os, t.argv[t.optind..]).rets == Parse(os, t.argv[t.optind..]).rets;
  }

  /** REQUIRE_ORDER does the same up to the first non-option. */
  lemma {:induction false} RunRequireOrder(os: string, s: State)
    requires Valid(s) && s.first == s.last
    ensures var (rets, t) := Run(RequireOrder, os, s); StoppedAtPlain(os, s, rets, t)
    decreases |s.argv| - s.optind, if s.nextchar == "" then 1 else 0, |s.nextchar|
  {
    StepAdvances(RequireOrder, os, s);
    var (t, r) := Step(RequireOrder, os, s);
    if r.End? {
      StoppedNow(os, s);
    } else {
      StepInOrder(RequireOrder, os, s);
      RunRequireOrder(os, t);
      var (rets, u) := Run(RequireOrder, os, t);
      StoppedLater(os, s, t, r, rets, u);
    }
  }

  /** Permuting changes where the arguments end up, not what is returned. */
  lemma PermuteAgreesWithInOrder(os: string, argv: seq<string>)
    requires argv != []
    ensures Run(Permute, os, Start(argv)).0 == Options(Run(ReturnInOrder, os, Start(argv)).0)
  {
    PermuteRun(os, argv);
    RunInOrder(os, Start(argv));
  }

  // ------------------------------------------------ the flag in the option string

  /** Only the first call strips a leading `-` or `+`.  Later calls look options
      up in the unstripped string: all but the flag itself are found alike. */
  lemma FlagChangesOnlyItself(flag: char, os: string, c: char)
    requires flag == '-' || flag == '+'
    ensures c != flag ==> KindOf([flag] + os, c) == KindOf(os, c)
    ensures !KindOf([flag] + os, flag).Unknown?
  {
    if c != flag {
      IndexShifts(flag, os, c, 0);
    }
  }

  lemma {:induction false} IndexShifts(flag: char, os: string, c: char, k: nat)
    requires c != flag && k <= |os|
    ensures Index([flag] + os, c, k + 1) == 1 + Index(os, c, k)
    ensures k == 0 ==> Index([flag] + os, c, 0) == 1 + Index(os, c, 0)
    decreases |os| - k
  {
    if k < |os| && os[k] != c {
      IndexShifts(flag, os, c, k + 1);
    }
  }

  // ------------------------------------------------------------- the code

  /** Where element k comes from when the blocks at i and j have been swapped. */
  function Swapped(i: nat, j: nat, len: nat, k: int): int {
    if i <= k < i + len then k - i + j else if j <= k < j + len then k - j + i else k
  }

  /** Where element k comes from once [bottom, middle) and [middle, top) have
      changed places. */
  function Rotated(bottom: nat, middle: nat, top: nat, k: int): int {
    if k < bottom || k >= top then k
    else if k < bottom + top - middle then k - bottom + middle
    else k - (top - middle)
  }

  /** `goal` is `a` with [bottom, middle) and [middle, top) changing places. */
  predicate Rotation(goal: seq<string>, a: seq<string>, bottom: nat, middle: nat, top: nat) {
    && bottom <= middle <= top <= |a| == |goal|
    && forall k | 0 <= k < |goal| :: goal[k] == a[Rotated(bottom, middle, top, k)]
  }

  predicate Swap(a: seq<string>, b: seq<string>, i: nat, j: nat, len: nat) {
    && i + len <= j && j + len <= |a| == |b|
    && forall k | 0 <= k < |a| :: b[k] == a[Swapped(i, j, len, k)]
  }

  lemma ExchangedRotates(s: State)
    requires s.first <= s.last <= s.optind <= |s.argv|
    ensures Rotation(Exchanged(s).argv, s.argv, s.first, s.last, s.optind)
  {
  }

  lemma SwapHigh(goal: seq<string>, a: seq<string>, b: seq<string>, bottom: nat, middle: nat, top: nat)
    requires bottom < middle < top && top - middle > middle - bottom
    requires Rotation(goal, a, bottom, middle, top) && Swap(a, b, bottom, top - (middle - bottom), middle - bottom)
    ensures Rotation(goal, b, bottom, middle, top - (middle - bottom))
  {
    var len := middle - bottom;
    forall k | 0 <= k < |goal|
      ensures goal[k] == b[Rotated(bottom, middle, top - len, k)]
    {
      assert Swapped(bottom, top - len, len, Rotated(bottom, middle, top - len, k)) == Rotated(bottom, middle, top, k);
    }
  }

  lemma SwapLow(goal: seq<string>, a: seq<string>, b: seq<string>, bottom: nat, middle: nat, top: nat)
    requires bottom < middle < top && top - middle <= middle - bottom
    requires Rotation(goal, a, bottom, middle, top) && Swap(a, b, bottom, middle, top - middle)
    ensures Rotation(goal, b, bottom + (top - middle), middle, top)
  {
    var len := top - middle;
    forall k | 0 <= k < |goal|
      ensures goal[k] == b[Rotated(bottom + len, middle, top, k)]
    {
      assert Swapped(bottom, middle, len, Rotated(bottom + len, middle, top, k)) == Rotated(bottom, middle, top, k);
    }
  }

  lemma NothingRotates(goal: seq<string>, a: seq<string>, bottom: nat, middle: nat, top: nat)
    requires Rotation(goal, a, bottom, middle, top)
    ensures bottom <= middle <= top <= |a|
    ensures bottom == middle || middle == top ==> goal == a
  {
    forall k | 0 <= k < |goal| && (bottom == middle || middle == top)
      ensures goal[k] == a[k]
    {
      assert Rotated(bottom, middle, top, k) == k;
    }
  }

  /** The ordering an option string asks for. */
  function OrderingOf(optstring: string, posixlyCorrect: bool): Ordering {
    if CharAt(optstring, 0) == '-' then ReturnInOrder
    else if CharAt(optstring, 0) == '+' || posixlyCorrect then RequireOrder
    else Permute
  }

  function Stripped(optstring: string): string {
    if CharAt(optstring, 0) == '-' || CharAt(optstring, 0) == '+' then optstring[1..] else optstring
  }

  /** All calls of a run with the caller's option string: the first one chooses the
      ordering and strips the flag, the later ones get the string as it is. */
  function Called(optstring: string, posixlyCorrect: bool, argv: seq<string>): (seq<Ret>, State)
    requires argv != []
  {
    var ord := OrderingOf(optstring, posixlyCorrect);
    StepAdvances(ord, Stripped(optstring), Start(argv));
    var (t, r) := Step(ord, Stripped(optstring), Start(argv));
    if r.End? then ([], t)
    else var (rets, u) := Run(ord, optstring, t); ([r] + rets, u)
  }

  /** The static variables of getopt.c and the vector it permutes. */
  class Scanner {
    var argv: array<string>
    var optind: nat
    var nextchar: string
    var firstNonopt: nat
    var lastNonopt: nat
    var ordering: Ordering
    var initialized: bool

    constructor (argv: array<string>)
      ensures this.argv == argv && optind == 1 && !initialized
    {
      this.argv, initialized := argv, false;
      optind, nextchar, firstNonopt, lastNonopt, ordering := 1, "", 1, 1, Permute;
    }

    ghost function Abs(): State
      reads this, argv
    {
      State(argv[..], optind, nextchar, firstNonopt, lastNonopt)
    }

    /** `_getopt_initialize`: the state, the ordering, and the option string
        without its flag, for this call only. */
    method Initialize(optstring: string, posixlyCorrect: bool) returns (os: string)
      modifies this
      ensures argv == old(argv) && Abs() == Start(argv[..]) && initialized == old(initialized)
      ensures ordering == OrderingOf(optstring, posixlyCorrect) && os == Stripped(optstring)
    {
      firstNonopt, lastNonopt, optind := 1, 1, 1;
      nextchar := "";
      os := optstring;
      if CharAt(optstring, 0) == '-' {
        ordering := ReturnInOrder;
        os := optstring[1..];
      } else if CharAt(optstring, 0) == '+' {
        ordering := RequireOrder;
        os := optstring[1..];
      } else if posixlyCorrect {
        ordering := RequireOrder;
      } else {
        ordering := Permute;
      }
    }

    /** Swapping two blocks of equal length, element by element. */
    method SwapBlocks(i0: nat, j0: nat, len: nat)
      requires i0 + len <= j0 && j0 + len <= argv.Length
      modifies argv
      ensures Swap(old(argv[..]), argv[..], i0, j0, len)
    {
      var a := argv;
      ghost var was := a[..];
      var i := 0;
      while i < len
        invariant i <= len
        invariant forall k | i0 <= k < i0 + i :: a[k] == was[k - i0 + j0]
        invariant forall k | j0 <= k < j0 + i :: a[k] == was[k - j0 + i0]
        invariant forall k | 0 <= k < i0 :: a[k] == was[k]
        invariant forall k | i0 + i <= k < j0 :: a[k] == was[k]
        invariant forall k | j0 + i <= k < a.Length :: a[k] == was[k]
      {
        var tem := a[i0 + i];
        a[i0 + i] := a[j0 + i];
        a[j0 + i] := tem;
        i := i + 1;
      }
    }

    /** The loop of `exchange`: the shorter block goes to its place, until one is empty. */
    method Rotate(bottom0: nat, middle: nat, top0: nat, ghost goal: seq<string>)
      requires Rotation(goal, argv[..], bottom0, middle, top0)
      modifies argv
      ensures argv[..] == goal
    {
      hide Rotation, Swap;
      NothingRotates(goal, argv[..], bottom0, middle, top0);
      var bottom: nat, top: nat := bottom0, top0;
      while top > middle && middle > bottom
        invariant bottom <= middle <= top <= argv.Length
        invariant Rotation(goal, argv[..], bottom, middle, top)
        decreases top - bottom
      {
        ghost var before := argv[..];
        if top - middle > middle - bottom {
          var len := middle - bottom;
          SwapBlocks(bottom, top - len, len);
          SwapHigh(goal, before, argv[..], bottom, middle, top);
          top := top - len;
        } else {
          var len := top - middle;
          SwapBlocks(bottom, middle, len);
          SwapLow(goal, before, argv[..], bottom, middle, top);
          bottom := bottom + len;
        }
      }
      NothingRotates(goal, argv[..], bottom, middle, top);
    }

    method Exchange()
      requires firstNonopt <= lastNonopt <= optind <= argv.Length
      modifies this`firstNonopt, this`lastNonopt, argv
      ensures Abs() == Exchanged(old(Abs()))
    {
      hide Rotation;
      ghost var goal := Exchanged(Abs()).argv;
      ExchangedRotates(Abs());
      Rotate(firstNonopt, lastNonopt, optind, goal);
      firstNonopt := firstNonopt + (optind - lastNonopt);
      lastNonopt := optind;
    }

    /** A call of getopt: the first one, or one after `optind` was set to 0, starts
        afresh and strips the flag; the others use the option string as it is. */
    method Getopt(optstring: string, posixlyCorrect: bool) returns (r: Ret)
      requires argv.Length > 0
      requires initialized && optind != 0 ==> Callable(Abs())
      modifies this, argv
      ensures argv == old(argv) && initialized
      ensures var first := !old(initialized) || old(optind) == 0;
        && ordering == (if first then OrderingOf(optstring, posixlyCorrect) else old(ordering))
        && (Abs(), r) == if first then Step(ordering, Stripped(optstring), Start(old(argv[..])))
                         else Step(ordering, optstring, old(Abs()))
    {
      var os := optstring;
      if !initialized || optind == 0 {
        os := Initialize(optstring, posixlyCorrect);
        initialized := true;
      }
      r := Next(os);
    }

    /** Calling getopt until it returns -1. */
    method ReadAll(optstring: string, posixlyCorrect: bool) returns (rets: seq<Ret>)
      requires argv.Length > 0 && (!initialized || optind == 0)
      modifies this, argv
      ensures argv == old(argv)
      ensures (rets, Abs()) == Called(optstring, posixlyCorrect, old(argv[..]))
    {
      hide Step, OrderingOf, Stripped, Run;
      ghost var all := Called(optstring, posixlyCorrect, argv[..]);
      StepAdvances(OrderingOf(optstring, posixlyCorrect), Stripped(optstring), Start(argv[..]));
      rets := [];
      var r := Getopt(optstring, posixlyCorrect);
      ghost var ord := ordering;
      assert [] + [r] == [r];
      while !r.End?
        invariant argv == old(argv) && initialized && ordering == ord
        invariant r.End? ==> (rets, Abs()) == all
        invariant !r.End? ==> Valid(Abs()) && all == Onward(rets + [r], Run(ord, optstring, Abs()))
        decreases if r.End? then 0 else 1, argv.Length - optind, if nextchar == "" then 1 else 0, |nextchar|
      {
        RunOnward(ord, optstring, Abs(), rets + [r]);
        StepAdvances(ord, optstring, Abs());
        rets := rets + [r];
        r := Getopt(optstring, posixlyCorrect);
      }
    }

    /** One call when the scanner is set up, for short options. */
    method Next(os: string) returns (r: Ret)
      requires Callable(Abs())
      modifies this, argv
      ensures argv == old(argv) && ordering == old(ordering) && initialized == old(initialized)
      ensures (Abs(), r) == Step(old(ordering), os, old(Abs()))
    {
      if nextchar == "" {
        var done := AdvanceElement();
        if done.Some? {
          return done.value;
        }
      }
      r := NextChar(os);
    }

    method AdvanceElement() returns (r: Maybe<Ret>)
      requires Callable(Abs()) && nextchar == ""
      modifies this, argv
      ensures argv == old(argv) && ordering == old(ordering) && initialized == old(initialized)
      ensures (Abs(), r) == Advance(old(ordering), old(Abs()))
    {
      hide Exchanged, SkipPlain, NonOption, Parse;
      Clamp();
      if ordering == Permute {
        PermuteAndSkip();
      }
      if optind != argv.Length && argv[optind] == "--" {
        FinishAtDashes();
      }
      r := Classify();
    }

    /** The end, a non-option, or the characters of an option element. */
    method Classify() returns (r: Maybe<Ret>)
      requires optind <= argv.Length
      modifies this`optind, this`nextchar
      ensures (Abs(), r) == Found(ordering, old(Abs()))
    {
      if optind == argv.Length {
        if firstNonopt != lastNonopt {
          optind := firstNonopt;
        }
        return Some(End);
      }
      if NonOption(argv[optind]) {
        if ordering == RequireOrder {
          return Some(End);
        }
        optind := optind + 1;
        return Some(Plain(argv[optind - 1]));
      }
      nextchar := argv[optind][1..];
      return None;
    }

    method Clamp()
      modifies this`firstNonopt, this`lastNonopt
      ensures Abs() == Clamped(old(Abs()))
    {
      if lastNonopt > optind {
        lastNonopt := optind;
      }
      if firstNonopt > optind {
        firstNonopt := optind;
      }
    }

    method PermuteAndSkip()
      requires firstNonopt <= lastNonopt <= optind <= argv.Length
      modifies this`firstNonopt, this`lastNonopt, this`optind, argv
      ensures Abs() == Permuted(old(Abs()))
      ensures firstNonopt <= lastNonopt <= optind <= argv.Length
    {
      hide SkipPlain;
      if firstNonopt != lastNonopt && lastNonopt != optind {
        Exchange();
      } else if lastNonopt != optind {
        firstNonopt := optind;
      }
      SkipNonOptions();
      lastNonopt := optind;
    }

    method SkipNonOptions()
      requires optind <= argv.Length
      modifies this`optind
      ensures optind == SkipPlain(argv[..], old(optind))
    {
      while optind < argv.Length && NonOption(argv[optind])
        invariant old(optind) <= optind <= argv.Length
        invariant SkipPlain(argv[..], optind) == SkipPlain(argv[..], old(optind))
      {
        optind := optind + 1;
      }
    }

    method FinishAtDashes()
      requires firstNonopt <= lastNonopt <= optind < argv.Length
      modifies this`firstNonopt, this`lastNonopt, this`optind, argv
      ensures Abs() == AfterDashes(old(Abs()))
    {
      optind := optind + 1;
      if firstNonopt != lastNonopt && lastNonopt != optind {
        Exchange();
      } else if firstNonopt == lastNonopt {
        firstNonopt := optind;
      }
      lastNonopt := argv.Length;
      optind := argv.Length;
    }

    method FindOption(os: string, c: char) returns (kind: Kind)
      ensures kind == KindOf(os, c)
    {
      var t := 0;
      while t < |os| && os[t] != c
        invariant t <= |os| && Index(os, c, t) == Index(os, c, 0)
      {
        t := t + 1;
      }
      if t == |os| || c == ':' {
        return Unknown;
      }
      if CharAt(os, t + 1) != ':' {
        return NoArg;
      }
      return if CharAt(os, t + 2) == ':' then Optional else Required;
    }

    method NextChar(os: string) returns (r: Ret)
      requires Callable(Abs()) && nextchar != ""
      modifies this`nextchar, this`optind
      ensures (Abs(), r) == Short(os, old(Abs()))
    {
      var c := nextchar[0];
      nextchar := nextchar[1..];
      if nextchar == "" {
        optind := optind + 1;
      }
      var kind := FindOption(os, c);
      if kind == Unknown {
        return Bad(c, '?');
      }
      r := Opt(c, None);
      if kind == Optional {
        if nextchar != "" {
          r := Opt(c, Some(nextchar));
          optind := optind + 1;
        }
        nextchar := "";
      } else if kind == Required {
        if nextchar != "" {
          r := Opt(c, Some(nextchar));
          optind := optind + 1;
        } else if optind == argv.Length {
          r := Bad(c, MissingCode(os));
        } else {
          r := Opt(c, Some(argv[optind]));
          optind := optind + 1;
        }
        nextchar := "";
      }
    }
  }
}
