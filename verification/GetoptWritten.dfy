/** Command lines and option strings as a user writes them: what getopt reads in them
    is what was written.  An independent account of the option characters. */
module GetoptWritten {
  import opened Getopt

  // ------------------------------------------------------------- the option string

  /** What stands behind an option character. */
  function Colons(k: Kind): string {
    match k
    case Required => ":"
    case Optional => "::"
    case _ => ""
  }

  lemma {:induction false} IndexIs(s: string, c: char, from: nat, i: nat)
    requires from <= i <= |s| && (forall j | from <= j < i :: s[j] != c) && (i < |s| ==> s[i] == c)
    ensures Index(s, c, from) == i
    decreases i - from
  {
    if from < i {
      IndexIs(s, c, from + 1, i);
    }
  }

  /** An option character has the kind its first place in the option string gives it. */
  lemma KindIsWritten(front: string, c: char, k: Kind, rest: string)
    requires c != ':' && c !in front && k != Unknown && (rest != "" ==> rest[0] != ':')
    ensures KindOf(front + [c] + Colons(k) + rest, c) == k
  {
    var os := front + [c] + Colons(k) + rest;
    assert forall j | 0 <= j < |front| :: os[j] == front[j];
    IndexIs(os, c, 0, |front|);
    var behind := Colons(k) + rest;
    assert os == front + [c] + behind;
    assert CharAt(os, |front| + 1) == CharAt(behind, 0) && CharAt(os, |front| + 2) == CharAt(behind, 1);
    assert k == Required ==> behind[1..] == rest;
  }

  /** Exactly the characters that are not there, and the colon, are unknown. */
  lemma UnknownIff(os: string, c: char)
    ensures KindOf(os, c) == Unknown <==> c == ':' || c !in os
  {
    if c !in os {
      IndexIs(os, c, 0, |os|);
    } else {
      var i :| 0 <= i < |os| && os[i] == c;
      FirstIndex(os, c, 0, i);
    }
  }

  lemma {:induction false} FirstIndex(s: string, c: char, from: nat, i: nat)
    requires from <= i < |s| && s[i] == c
    ensures Index(s, c, from) <= i
    decreases i - from
  {
    if from < i {
      FirstIndex(s, c, from + 1, i);
    }
  }

  // -------------------------------------------------------------- the command line

  datatype Item =
    | Flag(c: char)
    | Attached(c: char, arg: string)
    | Separate(c: char, arg: string)
    | Word(w: string)

  /** The arguments an item is written as. */
  function Written(item: Item): seq<string> {
    match item
    case Flag(c) => ["-" + [c]]
    case Attached(c, arg) => ["-" + [c] + arg]
    case Separate(c, arg) => ["-" + [c], arg]
    case Word(w) => [w]
  }

  function Meant(item: Item): Ret {
    match item
    case Flag(c) => Opt(c, None)
    case Attached(c, arg) => Opt(c, Some(arg))
    case Separate(c, arg) => Opt(c, Some(arg))
    case Word(w) => Plain(w)
  }

  /** Options are used as they are declared; words do not look like options. */
  predicate Proper(os: string, item: Item) {
    match item
    case Flag(c) => c != '-' && c != '\0' && (KindOf(os, c) == NoArg || KindOf(os, c) == Optional)
    case Attached(c, arg) => c != '\0' && arg != "" && (KindOf(os, c) == Required || KindOf(os, c) == Optional)
    case Separate(c, _) => c != '-' && c != '\0' && KindOf(os, c) == Required
    case Word(w) => w == "" || w == "-" || w[0] != '-'
  }

  predicate AllProper(os: string, items: seq<Item>) {
    forall i | 0 <= i < |items| :: Proper(os, items[i])
  }

  function Line(items: seq<Item>): seq<string> {
    if items == [] then [] else Written(items[0]) + Line(items[1..])
  }

  /** What an item adds to the options, and to the words behind them. */
  function AsOption(item: Item): seq<string> {
    if item.Word? then [] else Written(item)
  }

  function AsWord(item: Item): seq<string> {
    if item.Word? then [item.w] else []
  }

  function OptionsOf(items: seq<Item>): seq<string> {
    if items == [] then [] else AsOption(items[0]) + OptionsOf(items[1..])
  }

  function WordsOf(items: seq<Item>): seq<string> {
    if items == [] then [] else AsWord(items[0]) + WordsOf(items[1..])
  }

  function MeantBy(items: seq<Item>): (rets: seq<Ret>)
    ensures |rets| == |items| && forall i | 0 <= i < |items| :: rets[i] == Meant(items[i])
  {
    seq(|items|, i requires 0 <= i < |items| => Meant(items[i]))
  }

  /** An option element, then what is behind it. */
  lemma ParseAt(os: string, chars: string, more: seq<string>)
    requires chars != "" && chars != "-" && chars[0] != '\0'
    ensures var (rets, used) := Element(os, chars, FirstOf(more));
      && used <= |more|
      && var p := Parse(os, more[used..]);
         Parse(os, ["-" + chars] + more) == p.(rets := rets + p.rets, opts := ["-" + chars] + more[..used] + p.opts)
  {
    hide KindOf, Element;
    var args := ["-" + chars] + more;
    assert args[0][1..] == chars && args[1..] == more;
    ParseOption(os, args);
    var used := Element(os, chars, FirstOf(more)).1;
    assert args[1 + used..] == more[used..] && args[..1 + used] == ["-" + chars] + more[..used];
  }

  lemma ParseOption(os: string, args: seq<string>)
    requires args != [] && args[0] != "--" && !NonOption(args[0])
    ensures Parse(os, args) == ParseElement(os, args[0][1..], args)
  {
  }

  lemma ElementAt(os: string, c: char, rest: string, next: Maybe<string>)
    ensures var (r, m) := (Element(os, [c] + rest, next), Element(os, rest, next));
      match KindOf(os, c)
      case Unknown => r == ([Bad(c, '?')] + m.0, m.1)
      case NoArg => r == ([Opt(c, None)] + m.0, m.1)
      case Optional => r == ([Opt(c, if rest == "" then None else Some(rest))], 0)
      case Required =>
        r == (if rest != "" then ([Opt(c, Some(rest))], 0)
              else if next.None? then ([Bad(c, MissingCode(os))], 0)
              else ([Opt(c, Some(next.value))], 1))
    ensures Element(os, "", next) == ([], 0)
  {
    hide KindOf;
    assert ([c] + rest)[1..] == rest;
  }

  /** Something read in front of what p says. */
  function InFront(rets: seq<Ret>, opts: seq<string>, plains: seq<string>, p: Parsed): Parsed {
    Parsed(rets + p.rets, opts + p.opts, plains + p.plains, p.rest)
  }

  lemma InFrontTwice(a: seq<Ret>, o: seq<string>, w: seq<string>, b: seq<Ret>, o': seq<string>, w': seq<string>,
                     p: Parsed)
    ensures InFront(a, o, w, InFront(b, o', w', p)) == InFront(a + b, o + o', w + w', p)
    ensures InFront([], [], [], p) == p
  {
    assert a + b + p.rets == a + (b + p.rets) && o + o' + p.opts == o + (o' + p.opts);
    assert w + w' + p.plains == w + (w' + p.plains);
  }

  lemma WordParses(os: string, w: string, more: seq<string>)
    requires Proper(os, Word(w))
    ensures Parse(os, [w] + more) == InFront([Plain(w)], [], [w], Parse(os, more))
  {
    assert ([w] + more)[1..] == more;
    assert [] + Parse(os, more).opts == Parse(os, more).opts;
  }

  /** An option whose element ends with it. */
  lemma OptionParses(os: string, chars: string, r: Ret, more: seq<string>, used: nat)
    requires chars != "" && chars != "-" && chars[0] != '\0' && used <= |more|
    requires Element(os, chars, FirstOf(more)) == ([r], used)
    ensures Parse(os, ["-" + chars] + more) == InFront([r], ["-" + chars] + more[..used], [], Parse(os, more[used..]))
  {
    hide Element;
    ParseAt(os, chars, more);
    var p := Parse(os, more[used..]);
    assert [] + p.plains == p.plains;
  }

  lemma ItemParses(os: string, item: Item, more: seq<string>)
    requires Proper(os, item)
    ensures Parse(os, Written(item) + more) == InFront([Meant(item)], AsOption(item), AsWord(item), Parse(os, more))
  {
    hide KindOf, Element, InFront, Parse;
    match item
    case Flag(c) =>
      ElementAt(os, c, "", FirstOf(more));
      assert [c] + "" == [c] && more[0..] == more && ["-" + [c]] + more[..0] == ["-" + [c]];
      assert [Meant(item)] + [] == [Meant(item)];
      OptionParses(os, [c], Meant(item), more, 0);
    case Attached(c, arg) =>
      assert "-" + ([c] + arg) == "-" + [c] + arg;
      ElementAt(os, c, arg, FirstOf(more));
      assert more[0..] == more && Written(item) + more[..0] == Written(item);
      OptionParses(os, [c] + arg, Meant(item), more, 0);
    case Separate(c, arg) =>
      var next := [arg] + more;
      ElementAt(os, c, "", Some(arg));
      assert [c] + "" == [c] && Written(item) + more == ["-" + [c]] + next;
      assert next[1..] == more && ["-" + [c]] + next[..1] == Written(item);
      OptionParses(os, [c], Meant(item), next, 1);
    case Word(w) =>
      WordParses(os, w, more);
  }

  /** A written command line is read back item by item, whatever follows it. */
  lemma {:induction false} LineParses(os: string, items: seq<Item>, more: seq<string>)
    requires AllProper(os, items)
    ensures Parse(os, Line(items) + more)
         == InFront(MeantBy(items), OptionsOf(items), WordsOf(items), Parse(os, more))
    decreases |items|
  {
    hide Parse, Proper, AsOption, AsWord, InFront, Written;
    var p := Parse(os, more);
    if items == [] {
      assert Line(items) + more == more && MeantBy(items) == [];
      InFrontTwice([], [], [], [], [], [], p);
    } else {
      var item, rest := items[0], items[1..];
      ItemParses(os, item, Line(rest) + more);
      LineParses(os, rest, more);
      assert Line(items) + more == Written(item) + (Line(rest) + more);
      assert MeantBy(items) == [Meant(item)] + MeantBy(rest);
      InFrontTwice([Meant(item)], AsOption(item), AsWord(item), MeantBy(rest), OptionsOf(rest), WordsOf(rest), p);
    }
  }

  /** What follows -- is not read. */
  lemma LineEndsAtDashes(os: string, items: seq<Item>, more: seq<string>)
    requires AllProper(os, items)
    ensures Parse(os, Line(items) + (["--"] + more))
         == Parsed(MeantBy(items), OptionsOf(items) + ["--"], WordsOf(items), more)
  {
    hide Line;
    LineParses(os, items, ["--"] + more);
    assert MeantBy(items) + [] == MeantBy(items) && WordsOf(items) + [] == WordsOf(items);
    assert (["--"] + more)[1..] == more;
  }

  /** Options without arguments can be written in one element, or in two. */
  lemma ClusterParses(os: string, c: char, rest: string, more: seq<string>)
    requires c != '-' && c != '\0' && KindOf(os, c) == NoArg && rest != "" && rest != "-" && rest[0] != '\0'
    ensures Parse(os, ["-" + [c] + rest] + more).rets == Parse(os, ["-" + [c], "-" + rest] + more).rets
  {
    hide KindOf, Element, Parse;
    assert "-" + ([c] + rest) == "-" + [c] + rest;
    ParseAt(os, [c] + rest, more);
    ElementAt(os, c, rest, FirstOf(more));
    ParseAt(os, rest, more);
    ItemParses(os, Flag(c), ["-" + rest] + more);
    assert ["-" + [c], "-" + rest] + more == ["-" + [c]] + (["-" + rest] + more);
    var (rets, used) := Element(os, rest, FirstOf(more));
    assert ([Opt(c, None)] + rets) + Parse(os, more[used..]).rets
        == [Opt(c, None)] + (rets + Parse(os, more[used..]).rets);
  }

  /** An option that is not declared, and one whose argument is missing. */
  lemma WrongOptions(os: string, c: char, more: seq<string>)
    requires c != '-' && c != '\0'
    ensures c == ':' || c !in os ==> Parse(os, ["-" + [c]] + more).rets == [Bad(c, '?')] + Parse(os, more).rets
    ensures KindOf(os, c) == Required ==>
      Parse(os, ["-" + [c]]).rets == [Bad(c, if os != "" && os[0] == ':' then ':' else '?')]
  {
    hide KindOf, Element;
    UnknownIff(os, c);
    assert [c] + "" == [c] && more[0..] == more;
    ParseAt(os, [c], more);
    ElementAt(os, c, "", FirstOf(more));
    ParseAt(os, [c], []);
    ElementAt(os, c, "", None);
    assert ["-" + [c]] + [] == ["-" + [c]];
  }
}
