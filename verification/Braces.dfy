/** Brace expansion: brace_gobbler, brace_expand, expand_amble and array_concat
    of libs/kpathsea/expand.c. */
module Braces {

  const ENV_SEP := ':'
  const ARG_SEP := ','

  function At(s: string, i: nat): char {
    if i < |s| then s[i] else '\0'
  }

  predicate Blank(c: char) {
    c == '\0' || c == ' ' || c == '\t' || c == '\n'
  }

  // -------------------------------------------------------------- the scanner

  /** An open brace between blanks, or `{}` after a blank, is not a brace. */
  predicate Ignored(text: string, i: nat)
    requires i < |text|
  {
    && text[i] == '{'
    && (i == 0 || Blank(text[i - 1])) && (Blank(At(text, i + 1)) || At(text, i + 1) == '}')
  }

  /** What brace_gobbler does at one character: stop, or go on in a new state;
      `quoted` is NUL outside quotes. */
  datatype Move = Stop | Go(quoted: char, level: nat, pass: bool)

  function Next(text: string, i: nat, satisfy: char, quoted: char, level: nat, pass: bool): Move
    requires i < |text|
  {
    var c := text[i];
    if pass then Go(quoted, level, false)
    else if c == '\\' && (quoted == '\0' || quoted == '"' || quoted == '`') then Go(quoted, level, true)
    else if quoted != '\0' then Go(if c == quoted then '\0' else quoted, level, false)
    else if c == '"' || c == '\'' || c == '`' then Go(c, level, false)
    else if c == satisfy && level == 0 && Ignored(text, i) then Go(quoted, level, false)
    else if c == satisfy && level == 0 && (c != '{' || i == 0 || text[i - 1] != '$') then Stop
    else Go(quoted, if c == '{' then level + 1 else if c == '}' && level > 0 then level - 1 else level, false)
  }

  /** Where brace_gobbler stops. */
  function Gobble(text: string, i: nat, satisfy: char, quoted: char, level: nat, pass: bool): (r: nat)
    requires i <= |text|
    ensures i <= r <= |text|
    decreases |text| - i
  {
    if i == |text| then i
    else match Next(text, i, satisfy, quoted, level, pass)
         case Stop => i
         case Go(q, l, p) => Gobble(text, i + 1, satisfy, q, l, p)
  }

  method BraceGobbler(text: string, index: nat, satisfy: char) returns (i: nat, c: char)
    requires index <= |text| && '\0' !in text
    ensures i == Gobble(text, index, satisfy, '\0', 0, false) && c == At(text, i)
  {
    var level, quoted, pass := 0, '\0', false;
    i := index;
    while i < |text|
      invariant index <= i <= |text| && 0 <= level
      invariant Gobble(text, i, satisfy, quoted, level, pass) == Gobble(text, index, satisfy, '\0', 0, false)
    {
      c := text[i];
      if pass {
        pass := false;
      } else if c == '\\' && (quoted == '\0' || quoted == '"' || quoted == '`') {
        pass := true;
      } else if quoted != '\0' {
        if c == quoted {
          quoted := '\0';
        }
      } else if c == '"' || c == '\'' || c == '`' {
        quoted := c;
      } else if c == satisfy && level == 0 && Ignored(text, i) {
      } else {
        if c == satisfy && level == 0 && (c != '{' || i == 0 || text[i - 1] != '$') {
          return;
        }
        if c == '{' {
          level := level + 1;
        } else if c == '}' && level > 0 {
          level := level - 1;
        }
      }
      i := i + 1;
    }
    c := '\0';
  }

  // ------------------------------------------------------------ the expansion

  /** Every string of `a` followed by `b`. */
  function Suffixed(a: seq<string>, b: string): (r: seq<string>)
    ensures |r| == |a|
  {
    seq(|a|, j requires 0 <= j < |a| => a[j] + b)
  }

  /** array_concat: the left factor varies fastest. */
  function Product(a: seq<string>, b: seq<string>): (r: seq<string>)
    decreases |b|
  {
    if b == [] then [] else Suffixed(a, b[0]) + Product(a, b[1..])
  }

  function Expand(text: string): (r: seq<string>)
    decreases |text|, 0
  {
    var i := Gobble(text, 0, '{', '\0', 0, false);
    if i == |text| then [text]
    else
      var j := Gobble(text, i + 1, '}', '\0', 0, false);
      if j == |text| then [text]
      else Product(Product([text[..i]], ExpandAmble(text[i + 1..j], 0)), Expand(text[j + 1..]))
  }

  /** The end of the argument that starts at `start`. */
  function ArgEnd(text: string, start: nat): (i: nat)
    requires start <= |text|
    ensures start <= i <= |text|
  {
    var i0 := Gobble(text, start, ARG_SEP, '\0', 0, false);
    var i1 := Gobble(text, start, ENV_SEP, '\0', 0, false);
    if i0 < i1 then i0 else i1
  }

  function ExpandAmble(text: string, start: nat): (r: seq<string>)
    requires start <= |text|
    decreases |text|, 1, |text| - start
  {
    var i := ArgEnd(text, start);
    Expand(text[start..i]) + if i < |text| then ExpandAmble(text, i + 1) else []
  }

  lemma ExpandAt(text: string, i: nat, j: nat)
    requires i == Gobble(text, 0, '{', '\0', 0, false) < |text|
      && j == Gobble(text, i + 1, '}', '\0', 0, false) < |text|
    ensures Expand(text) == Product(Product([text[..i]], ExpandAmble(text[i + 1..j], 0)), Expand(text[j + 1..]))
  {
  }

  lemma ExpandNone(text: string)
    requires var i := Gobble(text, 0, '{', '\0', 0, false);
             i == |text| || Gobble(text, i + 1, '}', '\0', 0, false) == |text|
    ensures Expand(text) == [text]
  {
  }

  method ArrayConcat(arr1: seq<string>, arr2: seq<string>) returns (result: seq<string>)
    ensures result == Product(arr1, arr2)
  {
    result := [];
    var i := 0;
    while i < |arr2|
      invariant i <= |arr2| && result + Product(arr1, arr2[i..]) == Product(arr1, arr2)
    {
      var row := [];
      var j := 0;
      while j < |arr1|
        invariant j <= |arr1| && |row| == j && forall k | 0 <= k < j :: row[k] == arr1[k] + arr2[i]
      {
        row := row + [arr1[j] + arr2[i]];
        j := j + 1;
      }
      assert row == Suffixed(arr1, arr2[i]);
      assert arr2[i..][1..] == arr2[i + 1..];
      result := result + row;
      i := i + 1;
    }
  }

  method BraceExpand(text: string) returns (result: seq<string>)
    requires '\0' !in text
    ensures result == Expand(text)
    decreases |text|, 0
  {
    hide Expand, ExpandAmble, Gobble;
    var i, c := BraceGobbler(text, 0, '{');
    assert i < |text| ==> text[i] in text;
    GobbleStops(text, 0, '{', '\0', 0, false);
    result := [text[..i]];
    if c != '{' {
      ExpandNone(text);
      assert text[..i] == text;
      return;
    }
    var start := i + 1;
    i, c := BraceGobbler(text, start, '}');
    assert i < |text| ==> text[i] in text;
    if c == '\0' {
      ExpandNone(text);
      return [text];
    }
    ExpandAt(text, start - 1, i);
    var tack := ExpandBraces(text[start..i]);
    result := ArrayConcat(result, tack);
    tack := BraceExpand(text[i + 1..]);
    result := ArrayConcat(result, tack);
  }

  lemma ExpandAmbleAt(text: string, start: nat)
    requires start <= |text|
    ensures var k := ArgEnd(text, start);
            ExpandAmble(text, start) == Expand(text[start..k]) + if k < |text| then ExpandAmble(text, k + 1) else []
  {
  }

  /** The end of an argument: the nearer of the two separators. */
  method FindArgEnd(text: string, start: nat) returns (i: nat, more: bool)
    requires start <= |text| && '\0' !in text
    ensures i == ArgEnd(text, start) && more == (i < |text|)
  {
    var i0, c0 := BraceGobbler(text, start, ARG_SEP);
    var i1, c1 := BraceGobbler(text, start, ENV_SEP);
    assert i0 < |text| ==> text[i0] in text;
    assert i1 < |text| ==> text[i1] in text;
    i := if i0 < i1 then i0 else i1;
    more := c0 != '\0' || c1 != '\0';
  }

  /** expand_amble */
  method ExpandBraces(text: string) returns (result: seq<string>)
    requires '\0' !in text
    ensures result == ExpandAmble(text, 0)
    decreases |text|, 1
  {
    hide ExpandAmble, Expand, ArgEnd;
    result := [];
    var start, more := 0, true;
    while more
      invariant more ==> start <= |text| && result + ExpandAmble(text, start) == ExpandAmble(text, 0)
      invariant !more ==> result == ExpandAmble(text, 0)
      decreases if more then 1 + |text| - start else 0
    {
      ExpandAmbleAt(text, start);
      var i;
      i, more := FindArgEnd(text, start);
      var partial := BraceExpand(text[start..i]);
      ghost var rest := if more then ExpandAmble(text, i + 1) else [];
      assert result + (partial + rest) == (result + partial) + rest;
      result := result + partial;
      start := i + 1;
    }
  }

  /** A scan stops at the end or at the character it looks for. */
  lemma {:induction false} GobbleStops(text: string, i: nat, satisfy: char, quoted: char, level: nat, pass: bool)
    requires i <= |text|
    ensures var r := Gobble(text, i, satisfy, quoted, level, pass); r < |text| ==> text[r] == satisfy
    decreases |text| - i
  {
    if i < |text| {
      match Next(text, i, satisfy, quoted, level, pass)
      case Stop =>
      case Go(q, l, p) => GobbleStops(text, i + 1, satisfy, q, l, p);
    }
  }

  // --------------------------------------------------------------- the meaning

  /** A brace pattern: a literal, two patterns in a row, or a choice, written
      with one of the separators between the alternatives. */
  datatype Tree =
    | Lit(s: string)
    | Cat(left: Tree, right: Tree)
    | Alt(choices: Branches)

  datatype Branches = One(tree: Tree) | More(tree: Tree, sep: char, rest: Branches)

  predicate PlainChar(c: char) {
    c !in ['\0', ' ', '\t', '\n', '\\', '"', '\'', '`', '$', '{', '}', ARG_SEP, ENV_SEP]
  }

  predicate IsSep(c: char) {
    c == ARG_SEP || c == ENV_SEP
  }

  predicate Plain(t: Tree) {
    match t
    case Lit(s) => forall i | 0 <= i < |s| :: PlainChar(s[i])
    case Cat(l, r) => Plain(l) && Plain(r)
    case Alt(choices) => PlainBranches(choices)
  }

  predicate PlainBranches(b: Branches) {
    match b
    case One(t) => Plain(t)
    case More(t, sep, rest) => Plain(t) && IsSep(sep) && PlainBranches(rest)
  }

  function Render(t: Tree): string {
    match t
    case Lit(s) => s
    case Cat(l, r) => Render(l) + Render(r)
    case Alt(choices) => "{" + RenderBranches(choices) + "}"
  }

  function RenderBranches(b: Branches): string {
    match b
    case One(t) => Render(t)
    case More(t, sep, rest) => Render(t) + [sep] + RenderBranches(rest)
  }

  /** The strings a pattern stands for, in order. */
  function Denote(t: Tree): seq<string> {
    match t
    case Lit(s) => [s]
    case Cat(l, r) => Product(Denote(l), Denote(r))
    case Alt(choices) => DenoteBranches(choices)
  }

  function DenoteBranches(b: Branches): seq<string> {
    match b
    case One(t) => Denote(t)
    case More(t, sep, rest) => Denote(t) + DenoteBranches(rest)
  }

  // -------------------------------------------------------------- scanning past

  /** `s` stands in `text` at `i`. */
  predicate Stands(text: string, i: nat, s: string) {
    i + |s| <= |text| && text[i..i + |s|] == s
  }

  lemma StandsSplit(text: string, i: nat, a: string, b: string)
    requires Stands(text, i, a + b)
    ensures Stands(text, i, a) && Stands(text, i + |a|, b)
  {
    assert text[i..i + |a|] == (a + b)[..|a|];
    assert text[i + |a|..i + |a| + |b|] == (a + b)[|a|..];
  }

  lemma {:induction false} SkipPlain(text: string, i: nat, s: string, satisfy: char, level: nat)
    requires Stands(text, i, s) && forall k | 0 <= k < |s| :: PlainChar(s[k])
    requires satisfy == '{' || satisfy == '}' || IsSep(satisfy)
    ensures Gobble(text, i, satisfy, '\0', level, false) == Gobble(text, i + |s|, satisfy, '\0', level, false)
    decreases |s|
  {
    if s != "" {
      StandsSplit(text, i, [s[0]], s[1..]);
      assert s == [s[0]] + s[1..];
      assert text[i] == text[i..i + 1][0] == s[0];
      SkipPlain(text, i + 1, s[1..], satisfy, level);
    }
  }

  /** Looking for a close brace or a separator, a whole pattern is passed. */
  lemma {:induction false} SkipTree(text: string, i: nat, t: Tree, satisfy: char, level: nat)
    requires Plain(t) && Stands(text, i, Render(t)) && (satisfy == '}' || IsSep(satisfy))
    ensures Gobble(text, i, satisfy, '\0', level, false) == Gobble(text, i + |Render(t)|, satisfy, '\0', level, false)
    decreases t
  {
    hide Gobble;
    match t
    case Lit(s) => SkipPlain(text, i, s, satisfy, level);
    case Cat(l, r) =>
      StandsSplit(text, i, Render(l), Render(r));
      SkipTree(text, i, l, satisfy, level);
      SkipTree(text, i + |Render(l)|, r, satisfy, level);
    case Alt(choices) =>
      BraceStands(text, i, RenderBranches(choices));
      OpenBrace(text, i, satisfy, level);
      SkipBranches(text, i + 1, choices, satisfy, level + 1);
      CloseBrace(text, i + 1 + |RenderBranches(choices)|, satisfy, level + 1);
  }

  lemma BraceStands(text: string, i: nat, body: string)
    requires Stands(text, i, "{" + body + "}")
    ensures text[i] == '{' && Stands(text, i + 1, body) && text[i + 1 + |body|] == '}'
  {
    StandsSplit(text, i, "{" + body, "}");
    StandsSplit(text, i, "{", body);
    assert text[i] == text[i..i + 1][0];
    assert text[i + 1 + |body|] == text[i + 1 + |body|..i + 2 + |body|][0];
  }

  lemma OpenBrace(text: string, i: nat, satisfy: char, level: nat)
    requires i < |text| && text[i] == '{' && satisfy != '{'
    ensures Gobble(text, i, satisfy, '\0', level, false) == Gobble(text, i + 1, satisfy, '\0', level + 1, false)
  {
  }

  lemma CloseBrace(text: string, i: nat, satisfy: char, level: nat)
    requires i < |text| && text[i] == '}' && level > 0
    ensures Gobble(text, i, satisfy, '\0', level, false) == Gobble(text, i + 1, satisfy, '\0', level - 1, false)
  {
  }

  lemma SkipSep(text: string, i: nat, satisfy: char, level: nat)
    requires i < |text| && IsSep(text[i]) && (satisfy == '}' || level > 0)
    ensures Gobble(text, i, satisfy, '\0', level, false) == Gobble(text, i + 1, satisfy, '\0', level, false)
  {
  }

  lemma SepStands(text: string, i: nat, a: string, sep: char, b: string)
    requires Stands(text, i, a + [sep] + b)
    ensures Stands(text, i, a) && text[i + |a|] == sep && Stands(text, i + |a| + 1, b)
  {
    StandsSplit(text, i, a + [sep], b);
    StandsSplit(text, i, a, [sep]);
    assert text[i + |a|] == text[i + |a|..i + |a| + 1][0];
  }

  lemma {:induction false} SkipBranches(text: string, i: nat, b: Branches, satisfy: char, level: nat)
    requires PlainBranches(b) && Stands(text, i, RenderBranches(b)) && (satisfy == '}' || (level > 0 && IsSep(satisfy)))
    ensures Gobble(text, i, satisfy, '\0', level, false)
      == Gobble(text, i + |RenderBranches(b)|, satisfy, '\0', level, false)
    decreases b
  {
    hide Gobble, Stands;
    match b
    case One(t) => SkipTree(text, i, t, satisfy, level);
    case More(t, sep, rest) =>
      SepStands(text, i, Render(t), sep, RenderBranches(rest));
      SkipTree(text, i, t, satisfy, level);
      SkipSep(text, i + |Render(t)|, satisfy, level);
      SkipBranches(text, i + |Render(t)| + 1, rest, satisfy, level);
  }

  // ------------------------------------------------------------ product algebra

  lemma {:induction false} ProductAppend(a: seq<string>, b: seq<string>, c: seq<string>)
    ensures Product(a, b + c) == Product(a, b) + Product(a, c)
    decreases |b|
  {
    if b == [] {
      assert b + c == c;
    } else {
      assert (b + c)[1..] == b[1..] + c;
      ProductAppend(a, b[1..], c);
    }
  }

  lemma {:induction false} ProductSuffixed(a: seq<string>, b: seq<string>, x: string)
    ensures Product(a, Suffixed(b, x)) == Suffixed(Product(a, b), x)
    decreases |b|
  {
    if b != [] {
      ProductSuffixed(a, b[1..], x);
      assert Suffixed(b, x)[1..] == Suffixed(b[1..], x);
      assert Suffixed(a, b[0] + x) == Suffixed(Suffixed(a, b[0]), x) by {
        assert forall j | 0 <= j < |a| :: a[j] + (b[0] + x) == (a[j] + b[0]) + x;
      }
    }
  }

  lemma {:induction false} ProductAssoc(a: seq<string>, b: seq<string>, c: seq<string>)
    ensures Product(Product(a, b), c) == Product(a, Product(b, c))
    decreases |c|
  {
    if c != [] {
      ProductAssoc(a, b, c[1..]);
      ProductSuffixed(a, b, c[0]);
      ProductAppend(a, Suffixed(b, c[0]), Product(b, c[1..]));
    }
  }

  /** The one empty string is the unit. */
  lemma SuffixedNothing(a: seq<string>)
    ensures Suffixed(a, "") == a && Product(a, [""]) == a
  {
    assert forall j | 0 <= j < |a| :: a[j] + "" == a[j];
    assert Product(a, [""]) == Suffixed(a, "") + Product(a, []);
  }

  /** The one empty string is the unit. */
  lemma {:induction false} ProductUnit(a: seq<string>)
    ensures Product([""], a) == a && Product(a, [""]) == a
    decreases |a|
  {
    SuffixedNothing(a);
    if a != [] {
      ProductUnit(a[1..]);
      assert "" + a[0] == a[0];
      assert Suffixed([""], a[0]) == [a[0]];
    }
  }

  // ------------------------------------------------------------- the main result

  /** A brace at the front would be seen as one. */
  predicate NiceStart(v: string) {
    v != "" && v[0] == '{' ==> !Ignored(v, 0)
  }

  /** A brace at the front is not followed by a blank or the end. */
  predicate Tame(v: string) {
    v != "" && v[0] == '{' ==> |v| > 1 && !Blank(v[1])
  }

  lemma {:induction false} RenderStarts(t: Tree, v: string)
    requires Plain(t)
    ensures Render(t) != "" ==> PlainChar(Render(t)[0]) || Render(t)[0] == '{'
    ensures Tame(v) ==> Tame(Render(t) + v)
    decreases t
  {
    match t
    case Lit(s) =>
    case Cat(l, r) =>
      RenderStarts(r, v);
      RenderStarts(l, Render(r) + v);
      assert Render(t) + v == Render(l) + (Render(r) + v);
    case Alt(choices) =>
      BranchesStart(choices);
      assert (Render(t) + v)[1] == (RenderBranches(choices) + "}")[0];
  }

  lemma {:induction false} BranchesStart(b: Branches)
    requires PlainBranches(b)
    ensures RenderBranches(b) != "" ==> var c := RenderBranches(b)[0]; PlainChar(c) || c == '{' || IsSep(c)
    decreases b
  {
    match b
    case One(t) => RenderStarts(t, "");
    case More(t, sep, rest) => RenderStarts(t, "");
  }

  /** The last character hides no brace behind it. */
  predicate Firm(s: string) {
    s != "" ==> !Blank(s[|s| - 1]) && s[|s| - 1] != '$'
  }

  lemma NextShifts(s: string, v: string, k: nat, satisfy: char, quoted: char, level: nat, pass: bool)
    requires k < |v| && Firm(s) && (k > 0 || NiceStart(v))
    ensures Next(s + v, |s| + k, satisfy, quoted, level, pass) == Next(v, k, satisfy, quoted, level, pass)
  {
    var text := s + v;
    assert text[|s| + k] == v[k] && At(text, |s| + k + 1) == At(v, k + 1);
    assert k > 0 ==> text[|s| + k - 1] == v[k - 1];
    assert k == 0 && |s| > 0 ==> text[|s| + k - 1] == s[|s| - 1];
  }

  /** A scan does not depend on a firm text before it. */
  lemma {:induction false} GobbleShifts(s: string, v: string, k: nat, satisfy: char, quoted: char, level: nat,
                                        pass: bool)
    requires k <= |v| && Firm(s) && (k > 0 || NiceStart(v))
    ensures Gobble(s + v, |s| + k, satisfy, quoted, level, pass) == |s| + Gobble(v, k, satisfy, quoted, level, pass)
    decreases |v| - k
  {
    if k < |v| {
      NextShifts(s, v, k, satisfy, quoted, level, pass);
      match Next(v, k, satisfy, quoted, level, pass)
      case Stop =>
      case Go(q, l, p) => GobbleShifts(s, v, k + 1, satisfy, q, l, p);
    }
  }

  lemma ProductOne(s: string, p: string)
    ensures Product([s], [p]) == [s + p]
  {
    assert Product([s], [p]) == Suffixed([s], p) + Product([s], []);
  }

  lemma ProductFront(s: string, p: string, amble: seq<string>, post: seq<string>)
    ensures Product(Product([s + p], amble), post) == Product([s], Product(Product([p], amble), post))
  {
    ProductOne(s, p);
    ProductAssoc([s], [p], amble);
    ProductAssoc([s], Product([p], amble), post);
  }

  /** Where the parts of s + v are, given where the parts of v are. */
  lemma PartsShift(s: string, v: string, i: nat, j: nat)
    requires i < j < |v|
    ensures (s + v)[..|s| + i] == s + v[..i] && (s + v)[|s| + i + 1..|s| + j] == v[i + 1..j]
    ensures (s + v)[|s| + j + 1..] == v[j + 1..]
  {
  }

  lemma LiteralBeforeGroup(s: string, v: string, i: nat, j: nat)
    requires i < j < |v| && i == Gobble(v, 0, '{', '\0', 0, false) && j == Gobble(v, i + 1, '}', '\0', 0, false)
    requires |s| + i == Gobble(s + v, 0, '{', '\0', 0, false)
    requires |s| + j == Gobble(s + v, |s| + i + 1, '}', '\0', 0, false)
    ensures Expand(s + v) == Product([s], Expand(v))
  {
    hide Gobble, Expand, ExpandAmble, Product;
    ExpandAt(v, i, j);
    ExpandAt(s + v, |s| + i, |s| + j);
    PartsShift(s, v, i, j);
    ProductFront(s, v[..i], ExpandAmble(v[i + 1..j], 0), Expand(v[j + 1..]));
  }

  /** What v expands to behind other text: an empty choice at its front is seen. */
  function Behind(v: string): seq<string> {
    if |v| >= 2 && v[..2] == "{}" then Expand(v[2..]) else Expand(v)
  }

  /** Text that a scan for a brace passes goes in front of every result. */
  lemma ExpandBehind(s: string, v: string)
    requires s != "" && Firm(s) && Tame(v)
    requires Gobble(s + v, 0, '{', '\0', 0, false) == Gobble(s + v, |s|, '{', '\0', 0, false)
    ensures Expand(s + v) == Product([s], Behind(v))
  {
    hide Gobble, Expand, ExpandAmble, Product, NiceStart, Firm;
    if |v| >= 2 && v[..2] == "{}" {
      assert v == "{}" + v[2..] && s + v == s + "{}" + v[2..];
      EmptyChoiceBehind(s, v[2..]);
    } else {
      TameIsNice(v);
      GobbleShifts(s, v, 0, '{', '\0', 0, false);
      var i := Gobble(v, 0, '{', '\0', 0, false);
      var j := if i < |v| then Gobble(v, i + 1, '}', '\0', 0, false) else i;
      if i < |v| {
        GobbleShifts(s, v, i + 1, '}', '\0', 0, false);
      }
      if j < |v| {
        LiteralBeforeGroup(s, v, i, j);
      } else {
        ExpandNone(v);
        ExpandNone(s + v);
        ProductOne(s, v);
      }
    }
  }

  lemma TameIsNice(v: string)
    requires Tame(v) && !(|v| >= 2 && v[..2] == "{}")
    ensures NiceStart(v)
  {
    assert |v| >= 2 ==> v[..2] == [v[0], v[1]];
  }

  /** Behind other text {} stands for nothing. */
  lemma EmptyChoiceBehind(s: string, u: string)
    requires s != "" && Firm(s)
    requires Gobble(s + "{}" + u, 0, '{', '\0', 0, false) == Gobble(s + "{}" + u, |s|, '{', '\0', 0, false)
    ensures Expand(s + "{}" + u) == Product([s], Expand(u))
  {
    var text := s + "{}" + u;
    assert text[|s|] == '{' && text[|s| + 1] == '}' && text[|s| - 1] == s[|s| - 1];
    assert Gobble(text, |s|, '{', '\0', 0, false) == |s|;
    assert Gobble(text, |s| + 1, '}', '\0', 0, false) == |s| + 1;
    assert text[..|s|] == s && text[|s| + 1..|s| + 1] == "" && text[|s| + 2..] == u;
    ExpandAt(text, |s|, |s| + 1);
    EmptyAmble();
    ProductOne(s, "");
    assert s + "" == s;
  }

  lemma EmptyAmble()
    ensures ExpandAmble("", 0) == [""] && Expand("") == [""]
  {
    GobbleAtEnd("", '{');
    GobbleAtEnd("", ARG_SEP);
    GobbleAtEnd("", ENV_SEP);
    assert ""[0..0] == "" && Expand("") == [""];
  }

  /** Where a scan begins, {} is taken as it stands. */
  lemma EmptyChoiceFirst(v: string)
    requires Tame(v)
    ensures Expand("{}" + v) == Product(["{}"], Behind(v))
  {
    var text := "{}" + v;
    assert text[0] == '{' && text[1] == '}';
    assert Gobble(text, 0, '{', '\0', 0, false) == Gobble(text, 1, '{', '\0', 0, false)
        == Gobble(text, 2, '{', '\0', 0, false);
    ExpandBehind("{}", v);
  }

  // -------------------------------------------------- what is made of every pattern

  /** A choice between nothing and nothing: it is written {}. */
  predicate Hollow(b: Branches) {
    RenderBranches(b) == ""
  }

  /** Whether the text behind t is scanned afresh, given whether t is: behind a choice
      it is, but for a {} that was taken as it stands. */
  function Afresh(t: Tree, first: bool): bool {
    match t
    case Lit(s) => first && s == ""
    case Cat(l, r) => Afresh(r, Afresh(l, first))
    case Alt(choices) => !(first && Hollow(choices))
  }

  /** What expansion makes of t. */
  function Read(t: Tree, first: bool): seq<string> {
    match t
    case Lit(s) => [s]
    case Cat(l, r) => Product(Read(l, first), Read(r, Afresh(l, first)))
    case Alt(choices) => if !Hollow(choices) then ReadBranches(choices) else if first then ["{}"] else [""]
  }

  function ReadBranches(b: Branches): seq<string> {
    match b
    case One(t) => Read(t, true)
    case More(t, sep, rest) => Read(t, true) + ReadBranches(rest)
  }

  function Scanned(first: bool, v: string): seq<string> {
    if first then Expand(v) else Behind(v)
  }

  /** A pattern in front of anything multiplies the expansion of what follows. */
  lemma {:induction false} ExpandPrefix(t: Tree, v: string, first: bool)
    requires Plain(t) && Tame(v)
    ensures Scanned(first, Render(t) + v) == Product(Read(t, first), Scanned(Afresh(t, first), v))
    decreases t, 0
  {
    hide Expand, Product, Behind, Tame;
    match t
    case Lit(s) => ExpandLiteral(s, v, first);
    case Cat(l, r) =>
      RenderStarts(r, v);
      assert Render(t) + v == Render(l) + (Render(r) + v);
      ExpandPrefix(l, Render(r) + v, first);
      ExpandPrefix(r, v, Afresh(l, first));
      ProductAssoc(Read(l, first), Read(r, Afresh(l, first)), Scanned(Afresh(t, first), v));
    case Alt(choices) =>
      if Hollow(choices) {
        HollowChoice(v, first);
        assert "{" + "" + "}" + v == "{}" + v;
      } else {
        AmbleMeans(choices, RenderBranches(choices), 0);
        ExpandGroup(choices, v);
        ProductUnit(ReadBranches(choices));
        GroupIsSeen(choices, v);
      }
  }

  /** Plain text in front goes in front of every result. */
  lemma ExpandLiteral(s: string, v: string, first: bool)
    requires (forall i | 0 <= i < |s| :: PlainChar(s[i])) && Tame(v)
    ensures Scanned(first, s + v) == Product([s], Scanned(first && s == "", v))
  {
    hide Gobble, Expand, Product, Tame, PlainChar;
    if s == "" {
      assert s + v == v;
      ProductUnit(Scanned(first, v));
    } else {
      assert Stands(s + v, 0, s);
      SkipPlain(s + v, 0, s, '{', 0);
      PlainText(s, v);
      ExpandBehind(s, v);
    }
  }

  lemma PlainText(s: string, v: string)
    requires s != "" && forall i | 0 <= i < |s| :: PlainChar(s[i])
    ensures Firm(s) && Behind(s + v) == Expand(s + v)
  {
    assert PlainChar(s[|s| - 1]) && PlainChar(s[0]);
    assert |s + v| >= 2 ==> (s + v)[..2][0] == s[0];
  }

  lemma HollowChoice(v: string, first: bool)
    requires Tame(v)
    ensures Scanned(first, "{}" + v) == Product([if first then "{}" else ""], Scanned(!first, v))
  {
    hide Expand, Product;
    if first {
      EmptyChoiceFirst(v);
    } else {
      assert ("{}" + v)[..2] == "{}" && ("{}" + v)[2..] == v;
      ProductUnit(Expand(v));
    }
  }

  lemma GroupIsSeen(choices: Branches, v: string)
    requires PlainBranches(choices) && !Hollow(choices)
    ensures var text := "{" + RenderBranches(choices) + "}" + v; Behind(text) == Expand(text)
  {
    var text := "{" + RenderBranches(choices) + "}" + v;
    BranchesStart(choices);
    assert text[..2][1] == text[1] == RenderBranches(choices)[0];
  }

  /** Finding the braces of a choice. */
  lemma ExpandGroup(choices: Branches, v: string)
    requires PlainBranches(choices) && RenderBranches(choices) != ""
    ensures var body := RenderBranches(choices);
            Expand("{" + body + "}" + v) == Product(Product([""], ExpandAmble(body, 0)), Expand(v))
  {
    hide Expand, ExpandAmble, Product, RenderBranches, PlainBranches;
    var body := RenderBranches(choices);
    var text := "{" + body + "}" + v;
    BranchesStart(choices);
    assert text[0] == '{' && text[1] == body[0];
    assert Gobble(text, 0, '{', '\0', 0, false) == 0;
    assert text[1..1 + |body|] == body && text[1 + |body|] == '}';
    SkipBranches(text, 1, choices, '}', 0);
    assert Gobble(text, 1, '}', '\0', 0, false) == 1 + |body|;
    assert text[..0] == "" && text[2 + |body|..] == v;
    ExpandAt(text, 0, 1 + |body|);
  }

  /** The end of an alternative that is followed by a separator. */
  lemma ArgEndsAtSep(text: string, start: nat, t: Tree, sep: char, rest: string)
    requires Plain(t) && IsSep(sep) && start <= |text| && text[start..] == Render(t) + [sep] + rest
    ensures var k := start + |Render(t)|;
            ArgEnd(text, start) == k < |text| && text[start..k] == Render(t) && text[k + 1..] == rest
  {
    hide Render, Plain;
    var k := start + |Render(t)|;
    SepStands(text, start, Render(t), sep, rest);
    SkipTree(text, start, t, ARG_SEP, 0);
    SkipTree(text, start, t, ENV_SEP, 0);
    assert text[k + 1..] == rest;
  }

  /** The alternatives between braces are expanded one after the other. */
  lemma {:induction false} AmbleMeans(b: Branches, text: string, start: nat)
    requires PlainBranches(b) && start <= |text| && text[start..] == RenderBranches(b)
    ensures ExpandAmble(text, start) == ReadBranches(b)
    decreases b
  {
    hide ExpandAmble, Expand, Gobble, Render, Plain, Read;
    ExpandAmbleAt(text, start);
    match b
    case One(t) =>
      SkipTree(text, start, t, ARG_SEP, 0);
      SkipTree(text, start, t, ENV_SEP, 0);
      GobbleAtEnd(text, ARG_SEP);
      GobbleAtEnd(text, ENV_SEP);
      assert text[start..|text|] == Render(t);
      ExpandReads(t);
    case More(t, sep, rest) =>
      ArgEndsAtSep(text, start, t, sep, RenderBranches(rest));
      ExpandReads(t);
      AmbleMeans(rest, text, start + |Render(t)| + 1);
  }

  lemma GobbleAtEnd(text: string, satisfy: char)
    ensures Gobble(text, |text|, satisfy, '\0', 0, false) == |text|
  {
  }

  lemma {:induction false} ExpandReads(t: Tree)
    requires Plain(t)
    ensures Expand(Render(t)) == Read(t, true)
    decreases t, 1
  {
    ExpandPrefix(t, "", true);
    assert Render(t) + "" == Render(t);
    EmptyAmble();
    ProductUnit(Read(t, true));
  }

  // ------------------------------------------------------------- the main result

  /** No {} stands where a scan begins: at the start of the text or of an alternative,
      or right behind another choice. */
  predicate Tidy(t: Tree, first: bool) {
    match t
    case Lit(_) => true
    case Cat(l, r) => Tidy(l, first) && Tidy(r, Afresh(l, first))
    case Alt(choices) => if Hollow(choices) then !first else TidyBranches(choices)
  }

  predicate TidyBranches(b: Branches) {
    match b
    case One(t) => Tidy(t, true)
    case More(t, sep, rest) => Tidy(t, true) && TidyBranches(rest)
  }

  lemma {:induction false} NothingDenotes(t: Tree)
    requires Render(t) == ""
    ensures Denote(t) == [""]
    decreases t
  {
    match t
    case Lit(s) =>
    case Cat(l, r) =>
      NothingDenotes(l);
      NothingDenotes(r);
      ProductOne("", "");
    case Alt(_) =>
  }

  lemma {:induction false} TidyReads(t: Tree, first: bool)
    requires Tidy(t, first)
    ensures Read(t, first) == Denote(t)
    decreases t
  {
    match t
    case Lit(_) =>
    case Cat(l, r) =>
      TidyReads(l, first);
      TidyReads(r, Afresh(l, first));
    case Alt(choices) =>
      if Hollow(choices) {
        HollowDenotes(choices);
      } else {
        TidyBranchesRead(choices);
      }
  }

  lemma MoreIsWritten(b: Branches)
    ensures b.More? ==> !Hollow(b)
  {
    match b
    case One(_) =>
    case More(t, sep, rest) => assert RenderBranches(b)[|Render(t)|] == sep;
  }

  lemma HollowDenotes(b: Branches)
    requires Hollow(b)
    ensures DenoteBranches(b) == [""]
  {
    MoreIsWritten(b);
    if b.One? {
      NothingDenotes(b.tree);
    }
  }

  lemma {:induction false} TidyBranchesRead(b: Branches)
    requires TidyBranches(b)
    ensures ReadBranches(b) == DenoteBranches(b)
    decreases b
  {
    match b
    case One(t) => TidyReads(t, true);
    case More(t, sep, rest) =>
      TidyReads(t, true);
      TidyBranchesRead(rest);
  }

  predicate HasBrace(a: seq<string>) {
    exists i | 0 <= i < |a| :: '{' in a[i]
  }

  lemma {:induction false} ProductBrace(a: seq<string>, b: seq<string>)
    requires a != [] && b != []
    ensures Product(a, b) != [] && (HasBrace(Product(a, b)) <==> HasBrace(a) || HasBrace(b))
    decreases |b|
  {
    var head := Suffixed(a, b[0]);
    assert Product(a, b) == head + Product(a, b[1..]);
    SuffixedBrace(a, b[0]);
    AppendBrace(head, Product(a, b[1..]));
    AppendBrace([b[0]], b[1..]);
    assert [b[0]] + b[1..] == b;
    if b[1..] == [] {
      assert !HasBrace(Product(a, []));
    } else {
      ProductBrace(a, b[1..]);
    }
  }

  lemma SuffixedBrace(a: seq<string>, x: string)
    requires a != []
    ensures HasBrace(Suffixed(a, x)) <==> HasBrace(a) || HasBrace([x])
  {
    var r := Suffixed(a, x);
    assert forall i | 0 <= i < |a| :: '{' in r[i] <==> '{' in a[i] || '{' in x;
    if '{' in x {
      assert '{' in r[0] && '{' in [x][0];
    }
    if i :| 0 <= i < |a| && '{' in a[i] {
      assert '{' in r[i];
    }
  }

  lemma AppendBrace(a: seq<string>, b: seq<string>)
    ensures HasBrace(a + b) <==> HasBrace(a) || HasBrace(b)
  {
    if i :| 0 <= i < |a| && '{' in a[i] {
      assert '{' in (a + b)[i];
    }
    if i :| 0 <= i < |b| && '{' in b[i] {
      assert '{' in (a + b)[|a| + i];
    }
  }

  /** A brace is left in some result exactly if the pattern is not tidy. */
  lemma {:induction false} ReadBrace(t: Tree, first: bool)
    requires Plain(t)
    ensures Read(t, first) != [] && (HasBrace(Read(t, first)) <==> !Tidy(t, first))
    decreases t
  {
    hide HasBrace;
    match t
    case Lit(s) => PlainBrace(s);
    case Cat(l, r) =>
      ReadBrace(l, first);
      ReadBrace(r, Afresh(l, first));
      ProductBrace(Read(l, first), Read(r, Afresh(l, first)));
    case Alt(choices) =>
      if Hollow(choices) {
        BracesAre();
      } else {
        ReadBranchesBrace(choices);
      }
  }

  lemma PlainBrace(s: string)
    requires forall i | 0 <= i < |s| :: PlainChar(s[i])
    ensures !HasBrace([s])
  {
  }

  lemma BracesAre()
    ensures HasBrace(["{}"]) && !HasBrace([""])
  {
    assert "{}"[0] == '{' && ["{}"][0] == "{}";
  }

  lemma {:induction false} ReadBranchesBrace(b: Branches)
    requires PlainBranches(b)
    ensures ReadBranches(b) != [] && (HasBrace(ReadBranches(b)) <==> !TidyBranches(b))
    decreases b
  {
    hide HasBrace;
    match b
    case One(t) => ReadBrace(t, true);
    case More(t, sep, rest) =>
      ReadBrace(t, true);
      ReadBranchesBrace(rest);
      AppendBrace(Read(t, true), ReadBranches(rest));
  }

  lemma {:induction false} DenoteBrace(t: Tree)
    requires Plain(t)
    ensures Denote(t) != [] && !HasBrace(Denote(t))
    decreases t
  {
    hide HasBrace;
    match t
    case Lit(s) => PlainBrace(s);
    case Cat(l, r) =>
      DenoteBrace(l);
      DenoteBrace(r);
      ProductBrace(Denote(l), Denote(r));
    case Alt(choices) => DenoteBranchesBrace(choices);
  }

  lemma {:induction false} DenoteBranchesBrace(b: Branches)
    requires PlainBranches(b)
    ensures DenoteBranches(b) != [] && !HasBrace(DenoteBranches(b))
    decreases b
  {
    hide HasBrace;
    match b
    case One(t) => DenoteBrace(t);
    case More(t, sep, rest) =>
      DenoteBrace(t);
      DenoteBranchesBrace(rest);
      AppendBrace(Denote(t), DenoteBranches(rest));
  }

  /** A pattern expands to what it denotes exactly if no {} stands where a scan begins. */
  lemma ExpandWholeIff(t: Tree)
    requires Plain(t)
    ensures Expand(Render(t)) == Denote(t) <==> Tidy(t, true)
  {
    ExpandReads(t);
    ReadBrace(t, true);
    DenoteBrace(t);
    if Tidy(t, true) {
      TidyReads(t, true);
    }
  }

  /** An empty choice alone is not expanded. */
  lemma EmptyChoiceStays()
    ensures Expand("{}") == ["{}"]
  {
    assert "{}" + "" == "{}";
    EmptyChoiceFirst("");
    EmptyAmble();
    ProductOne("{}", "");
  }

  /** Every pair is joined once; the left factor varies fastest. */
  lemma {:induction false} ProductAt(a: seq<string>, b: seq<string>, j: nat, k: nat)
    requires j < |a| && k < |b|
    ensures |Product(a, b)| == |a| * |b|
    ensures |a| * k + j < |a| * |b| && Product(a, b)[|a| * k + j] == a[j] + b[k]
    decreases |b|
  {
    ProductSize(a, b);
    ProductSize(a, b[1..]);
    assert |a| * |b| == |a| + |a| * (|b| - 1);
    if k > 0 {
      ProductAt(a, b[1..], j, k - 1);
      assert |a| * k == |a| + |a| * (k - 1);
    }
  }

  lemma {:induction false} ProductSize(a: seq<string>, b: seq<string>)
    ensures |Product(a, b)| == |a| * |b|
    decreases |b|
  {
    if b != [] {
      ProductSize(a, b[1..]);
      assert |a| * |b| == |a| + |a| * (|b| - 1);
    }
  }

  // ------------------------------------------------- braces that are not to be expanded

  lemma {:induction false} SkipInside(text: string, i: nat, w: string, mark: char, satisfy: char, level: nat)
    requires Stands(text, i, w) && mark in "\"'`" && mark !in w && (mark == '\'' || '\\' !in w)
    ensures Gobble(text, i, satisfy, mark, level, false) == Gobble(text, i + |w|, satisfy, mark, level, false)
    decreases |w|
  {
    if w != "" {
      StandsSplit(text, i, [w[0]], w[1..]);
      assert w == [w[0]] + w[1..];
      assert text[i] == text[i..i + 1][0] == w[0];
      SkipInside(text, i + 1, w[1..], mark, satisfy, level);
    }
  }

  /** A scan passes a text in quote marks in one piece, whatever it looks for; a backslash
      means nothing between single quotes. */
  lemma SkipQuoted(text: string, i: nat, w: string, mark: char, satisfy: char, level: nat)
    requires Stands(text, i, [mark] + w + [mark]) && mark in "\"'`" && mark !in w && (mark == '\'' || '\\' !in w)
    ensures Gobble(text, i, satisfy, '\0', level, false) == Gobble(text, i + |w| + 2, satisfy, '\0', level, false)
  {
    StandsSplit(text, i, [mark] + w, [mark]);
    StandsSplit(text, i, [mark], w);
    assert text[i] == text[i..i + 1][0] == mark;
    assert text[i + |w| + 1] == text[i + |w| + 1..i + |w| + 2][0] == mark;
    SkipInside(text, i + 1, w, mark, satisfy, level);
  }

  /** So does it an escaped character, between double and back quotes too. */
  lemma SkipEscaped(text: string, i: nat, mark: char, satisfy: char, level: nat)
    requires i + 1 < |text| && text[i] == '\\' && (mark == '\0' || mark == '"' || mark == '`')
    ensures Gobble(text, i, satisfy, mark, level, false) == Gobble(text, i + 2, satisfy, mark, level, false)
  {
  }

  /** And a reference to a variable in braces. */
  lemma SkipReference(text: string, i: nat, w: string)
    requires Stands(text, i, "${" + w + "}") && forall k | 0 <= k < |w| :: PlainChar(w[k])
    ensures Gobble(text, i, '{', '\0', 0, false) == Gobble(text, i + |w| + 3, '{', '\0', 0, false)
  {
    hide Gobble;
    assert "${" + w + "}" == "$" + ("{" + w + "}");
    StandsSplit(text, i, "$", "{" + w + "}");
    BraceStands(text, i + 1, w);
    assert text[i] == text[i..i + 1][0] == '$';
    DollarThenBrace(text, i);
    SkipPlain(text, i + 2, w, '{', 1);
    CloseBrace(text, i + 2 + |w|, '{', 1);
  }

  lemma DollarThenBrace(text: string, i: nat)
    requires i + 1 < |text| && text[i] == '$' && text[i + 1] == '{'
    ensures Gobble(text, i, '{', '\0', 0, false) == Gobble(text, i + 2, '{', '\0', 1, false)
  {
  }

  /** An open brace between blanks is passed, the beginning and the end being blanks. */
  lemma SkipLoneBrace(text: string, i: nat)
    requires i < |text| && text[i] == '{' && (i == 0 || text[i - 1] in " \t\n")
    requires i + 1 < |text| ==> text[i + 1] in " \t\n"
    ensures Gobble(text, i, '{', '\0', 0, false) == Gobble(text, i + 1, '{', '\0', 0, false)
  {
  }

  lemma {:induction false} NoneToFind(text: string, i: nat, satisfy: char, quoted: char, level: nat, pass: bool)
    requires i <= |text| && satisfy !in text[i..]
    ensures Gobble(text, i, satisfy, quoted, level, pass) == |text|
    decreases |text| - i
  {
    if i < |text| {
      assert text[i] == text[i..][0] && text[i + 1..] == text[i..][1..];
      match Next(text, i, satisfy, quoted, level, pass)
      case Go(q, l, p) => NoneToFind(text, i + 1, satisfy, q, l, p);
    }
  }

  /** Texts that are left alone: those without open or without close braces, quoted ones
      and references to variables. */
  lemma LeftAlone(text: string, w: string, mark: char)
    ensures '{' !in text || '}' !in text ==> Expand(text) == [text]
    ensures mark in "\"'`" && mark !in w && (mark == '\'' || '\\' !in w) ==>
              Expand([mark] + w + [mark]) == [[mark] + w + [mark]]
    ensures (forall k | 0 <= k < |w| :: PlainChar(w[k])) ==> Expand("${" + w + "}") == ["${" + w + "}"]
  {
    hide Gobble, PlainChar;
    assert text[0..] == text;
    if '{' !in text {
      NoneToFind(text, 0, '{', '\0', 0, false);
    } else if '}' !in text {
      var i := Gobble(text, 0, '{', '\0', 0, false);
      if i < |text| {
        NoneToFind(text, i + 1, '}', '\0', 0, false);
      }
    }
    var q, r := [mark] + w + [mark], "${" + w + "}";
    if mark in "\"'`" && mark !in w && (mark == '\'' || '\\' !in w) {
      SkipQuoted(q, 0, w, mark, '{', 0);
      NoneToFind(q, |q|, '{', '\0', 0, false);
    }
    if forall k | 0 <= k < |w| :: PlainChar(w[k]) {
      SkipReference(r, 0, w);
      NoneToFind(r, |r|, '{', '\0', 0, false);
    }
  }

  /** Commas and colons both separate. */
  lemma CommasAndColons(x: string, a: string, b: string, c: string)
    requires AllPlain(x) && AllPlain(a) && AllPlain(b) && AllPlain(c)
    ensures Expand(x + ("{" + (a + "," + b + ":" + c) + "}")) == [x + a, x + b, x + c]
  {
    hide *;
    var choices := Three(a, b, c);
    var t := Cat(Lit(x), Alt(choices));
    ThreeAre(a, b, c);
    AltAre(x, choices);
    ExpandWholeIff(t);
    ProductThree(x, a, b, c);
  }

  predicate AllPlain(s: string) {
    forall k | 0 <= k < |s| :: PlainChar(s[k])
  }

  function Three(a: string, b: string, c: string): Branches {
    More(Lit(a), ',', More(Lit(b), ':', One(Lit(c))))
  }

  lemma ThreeAre(a: string, b: string, c: string)
    ensures RenderBranches(Three(a, b, c)) == a + "," + b + ":" + c
    ensures DenoteBranches(Three(a, b, c)) == [a, b, c] && TidyBranches(Three(a, b, c))
    ensures AllPlain(a) && AllPlain(b) && AllPlain(c) ==> PlainBranches(Three(a, b, c))
  {
    hide PlainChar;
    var b1 := One(Lit(c));
    var b2 := More(Lit(b), ':', b1);
    BranchesAre(b1);
    BranchesAre(b2);
    BranchesAre(Three(a, b, c));
    assert a + "," + (b + ":" + c) == a + "," + b + ":" + c;
  }

  lemma BranchesAre(choices: Branches)
    requires choices.tree.Lit?
    ensures var s := choices.tree.s;
      match choices
      case One(_) =>
        && RenderBranches(choices) == s && DenoteBranches(choices) == [s] && TidyBranches(choices)
        && (AllPlain(s) ==> PlainBranches(choices))
      case More(_, sep, rest) =>
        && RenderBranches(choices) == s + [sep] + RenderBranches(rest)
        && DenoteBranches(choices) == [s] + DenoteBranches(rest)
        && (TidyBranches(rest) ==> TidyBranches(choices))
        && (AllPlain(s) && IsSep(sep) && PlainBranches(rest) ==> PlainBranches(choices))
  {
    hide PlainChar;
  }

  lemma AltAre(x: string, choices: Branches)
    ensures var t := Cat(Lit(x), Alt(choices));
      && Render(t) == x + ("{" + RenderBranches(choices) + "}")
      && Denote(t) == Product([x], DenoteBranches(choices))
      && (PlainBranches(choices) && AllPlain(x) ==> Plain(t))
      && (RenderBranches(choices) != "" && TidyBranches(choices) ==> Tidy(t, true))
  {
    hide PlainChar, RenderBranches, DenoteBranches, PlainBranches, TidyBranches, Product;
  }

  lemma ProductThree(x: string, a: string, b: string, c: string)
    ensures Product([x], [a, b, c]) == [x + a, x + b, x + c]
  {
    hide Product;
    var d := [a, b, c];
    ProductAt([x], d, 0, 0);
    ProductAt([x], d, 0, 1);
    ProductAt([x], d, 0, 2);
  }
}
