/** Splitting a history line into words: `history_tokenize_internal` and
    `quote_breaks` of libs/readline/histexpand.c, with no comment character. */
module Tokenizer {

  datatype Maybe<T> = None | Some(value: T)

  const Nul: char := 0 as char

  function At(s: string, i: nat): char {
    if i < |s| then s[i] else Nul
  }

  predicate Blank(c: char) {
    c == ' ' || c == '\t'
  }

  predicate QuoteMark(c: char) {
    c == '"' || c == '\'' || c == '`'
  }

  predicate Meta(c: char) {
    c in " \t\n;&()|<>"
  }

  // --------------------------------------------------- how characters are quoted

  datatype Quoting = Bare | Quoted(mark: char) | Escaped(back: Quoting)

  /** The state behind one more character. */
  function Next(q: Quoting, c: char): Quoting {
    match q
    case Bare => if c == '\\' then Escaped(Bare) else if QuoteMark(c) then Quoted(c) else Bare
    case Quoted(m) => if c == '\\' && m != '\'' then Escaped(q) else if c == m then Bare else q
    case Escaped(back) => back
  }

  /** The state behind a text. */
  function State(t: string): Quoting {
    if t == "" then Bare else Next(State(t[..|t| - 1]), t[|t| - 1])
  }

  lemma StateSnoc(s: string, k: nat)
    requires k < |s|
    ensures State(s[..k + 1]) == Next(State(s[..k]), s[k])
  {
    assert s[..k + 1][..k] == s[..k];
  }

  /** An unquoted, unescaped metacharacter. */
  predicate Breaks(s: string, k: nat)
    requires k < |s|
  {
    State(s[..k]) == Bare && Meta(s[k])
  }

  // ------------------------------------------------------------------- the tokens

  function SkipBlanks(s: string, i: nat): (j: nat)
    requires i <= |s|
    ensures i <= j <= |s| && (forall k | i <= k < j :: Blank(s[k])) && (j < |s| ==> !Blank(s[j]))
    decreases |s| - i
  {
    if i < |s| && Blank(s[i]) then SkipBlanks(s, i + 1) else i
  }

  /** The length of the operator at i; 0 for none. */
  function OperatorLength(s: string, i: nat): (n: nat)
    requires i < |s|
    ensures i + n <= |s|
  {
    var c, peek := s[i], At(s, i + 1);
    if c in "()\n" then 1
    else if c !in "<>;&|$" then 0
    else if peek == c && peek != '$' then (if peek == '<' && At(s, i + 2) == '-' then 3 else 2)
    else if (peek == '&' && (c == '>' || c == '<')) || (peek == '>' && c == '&') || (peek == '(' && c == '$') then 2
    else if c != '$' then 1
    else 0
  }

  /** The end of the word that goes on at i inside the given quotes, NUL for none;
      None: the scan jumps over the end of the line. */
  function WordEnd(s: string, i: nat, delimiter: char): (r: Maybe<nat>)
    requires i <= |s|
    ensures r.Some? ==> i <= r.value <= |s|
    decreases |s| - i
  {
    if i == |s| then Some(i)
    else if s[i] == '\\' && At(s, i + 1) == '\n' then WordEnd(s, i + 2, delimiter)
    else if s[i] == '\\' && delimiter != '\'' then
      if i + 1 == |s| then None else WordEnd(s, i + 2, delimiter)
    else if delimiter != Nul && s[i] == delimiter then WordEnd(s, i + 1, Nul)
    else if delimiter == Nul && Meta(s[i]) then Some(i)
    else if delimiter == Nul && QuoteMark(s[i]) then WordEnd(s, i + 1, s[i])
    else WordEnd(s, i + 1, delimiter)
  }

  type Slice = (nat, nat)

  function TokenEnd(s: string, i: nat): (r: Maybe<nat>)
    requires i < |s| && !Blank(s[i])
    ensures r.Some? ==> i < r.value <= |s|
  {
    var n := OperatorLength(s, i);
    if n > 0 then Some(i + n) else WordEnd(s, i, Nul)
  }

  /** What the outer loop finds from i on. */
  function Tokens(s: string, i: nat): Maybe<seq<Slice>>
    requires i <= |s|
    decreases |s| - i
  {
    var j := SkipBlanks(s, i);
    if j == |s| then Some([])
    else
      var e := TokenEnd(s, j);
      if e.None? then None
      else
        var rest := Tokens(s, e.value);
        if rest.None? then None else Some([(j, e.value)] + rest.value)
  }

  predicate Operator(t: string) {
    || (|t| == 1 && t[0] in "()\n<>;&|")
    || (|t| == 2 && t[0] == t[1] && t[0] in "<>;&|")
    || t == "<&" || t == ">&" || t == "&>" || t == "$(" || t == "<<-"
  }

  /** The longest operator that begins at a. */
  predicate LongestOperator(s: string, a: nat, b: nat)
    requires a < b <= |s|
  {
    Operator(s[a..b]) && forall c | b < c <= |s| :: !Operator(s[a..c])
  }

  predicate NoOperator(s: string, a: nat) {
    forall c | a < c <= |s| :: !Operator(s[a..c])
  }

  /** A word: it holds no unquoted metacharacter and goes on until one, or the end. */
  predicate Word(s: string, a: nat, b: nat)
    requires a < b <= |s|
  {
    && (forall k | a <= k < b :: !Breaks(s, k))
    && (b < |s| ==> Breaks(s, b))
  }

  /** The tokens are non-empty operators and words that start unquoted, one behind the
      other; all between, before and behind them are blanks. */
  predicate Covers(s: string, i: nat, toks: seq<Slice>)
    requires i <= |s|
    decreases |toks|
  {
    if toks == [] then forall k | i <= k < |s| :: Blank(s[k])
    else
      var (a, b) := toks[0];
      && i <= a < b <= |s| && (forall k | i <= k < a :: Blank(s[k])) && State(s[..a]) == Bare
      && (LongestOperator(s, a, b) || (NoOperator(s, a) && Word(s, a, b)))
      && Covers(s, b, toks[1..])
  }

  // ----------------------------------------------------------------------- proofs

  function InQuotes(delimiter: char): Quoting {
    if delimiter == Nul then Bare else Quoted(delimiter)
  }

  predicate Delimiter(d: char) {
    d == Nul || QuoteMark(d)
  }

  /** A word ends at the first unquoted metacharacter or at the end of the line; the
      scan jumps over the end exactly when the line ends in a pending escape. */
  lemma {:induction false} WordEndIs(s: string, i: nat, d: char)
    requires i <= |s| && Nul !in s && Delimiter(d) && State(s[..i]) == InQuotes(d)
    ensures var e := WordEnd(s, i, d);
      if e == None then State(s).Escaped?
      else
        && i <= e.value <= |s| && (forall k | i <= k < e.value :: !Breaks(s, k))
        && (e.value < |s| ==> Breaks(s, e.value)) && (e.value == |s| ==> !State(s).Escaped?)
    decreases |s| - i
  {
    hide State;
    assert s[..|s|] == s;
    if i < |s| {
      StateSnoc(s, i);
      if s[i] == '\\' && (At(s, i + 1) == '\n' || d != '\'') {
        if i + 1 < |s| {
          StateSnoc(s, i + 1);
          WordEndIs(s, i + 2, d);
        }
      } else if d != Nul && s[i] == d {
        WordEndIs(s, i + 1, Nul);
      } else if d == Nul && QuoteMark(s[i]) {
        WordEndIs(s, i + 1, s[i]);
      } else if !(d == Nul && Meta(s[i])) {
        WordEndIs(s, i + 1, d);
      }
    }
  }

  /** The operators are taken as long as possible. */
  lemma OperatorLengthIs(s: string, a: nat)
    requires a < |s| && Nul !in s
    ensures var n := OperatorLength(s, a); if n > 0 then LongestOperator(s, a, a + n) else NoOperator(s, a)
  {
    assert s[a..a + 1] == [s[a]];
    assert a + 1 < |s| ==> s[a..a + 2] == [s[a], s[a + 1]];
    assert a + 2 < |s| ==> s[a..a + 3] == [s[a], s[a + 1], s[a + 2]];
    forall c | a < c <= |s|
      ensures Operator(s[a..c]) ==> c <= a + 3
    {
    }
  }

  /** Operators and blanks leave the line unquoted. */
  lemma {:induction false} StaysBare(s: string, a: nat, b: nat)
    requires a <= b <= |s| && State(s[..a]) == Bare
    requires forall k | a <= k < b :: s[k] != '\\' && !QuoteMark(s[k])
    ensures State(s[..b]) == Bare
    decreases b - a
  {
    if a < b {
      StateSnoc(s, a);
      StaysBare(s, a + 1, b);
    }
  }

  lemma OperatorChars(t: string)
    requires Operator(t)
    ensures forall k | 0 <= k < |t| :: t[k] != '\\' && !QuoteMark(t[k])
    ensures t != "" && !Blank(t[0])
  {
  }

  /** One token from a on. */
  lemma TokenEndIs(s: string, a: nat)
    requires a < |s| && Nul !in s && !Blank(s[a]) && State(s[..a]) == Bare
    ensures var e := TokenEnd(s, a);
      if e == None then State(s).Escaped?
      else
        && (LongestOperator(s, a, e.value) || (NoOperator(s, a) && Word(s, a, e.value)))
        && (e.value < |s| ==> State(s[..e.value]) == Bare)
        && (e.value == |s| ==> !State(s).Escaped?)
  {
    hide WordEnd, OperatorLength, State, Operator;
    var n := OperatorLength(s, a);
    OperatorLengthIs(s, a);
    assert s[..|s|] == s;
    if n > 0 {
      OperatorIsBare(s, a, a + n);
    } else {
      WordEndIs(s, a, Nul);
    }
  }

  lemma OperatorIsBare(s: string, a: nat, b: nat)
    requires a < b <= |s| && Operator(s[a..b]) && State(s[..a]) == Bare
    ensures State(s[..b]) == Bare
  {
    hide Operator, State;
    OperatorChars(s[a..b]);
    assert forall k | a <= k < b :: s[k] == s[a..b][k - a];
    StaysBare(s, a, b);
  }

  /** The tokens cover the line; the scan jumps over its end exactly when the line
      ends in a pending escape. */
  lemma {:induction false} TokensCover(s: string, i: nat)
    requires i <= |s| && Nul !in s && (i < |s| ==> State(s[..i]) == Bare) && (i == |s| ==> !State(s).Escaped?)
    ensures Tokens(s, i) == None <==> State(s).Escaped?
    ensures Tokens(s, i).Some? ==> Covers(s, i, Tokens(s, i).value)
    decreases |s| - i
  {
    hide TokenEnd, State, Word, LongestOperator, NoOperator;
    var j := SkipBlanks(s, i);
    assert s[..|s|] == s;
    if i < |s| {
      StaysBare(s, i, j);
      if j < |s| {
        TokenEndIs(s, j);
        var e := TokenEnd(s, j);
        if e.Some? {
          TokensCover(s, e.value);
          var rest := Tokens(s, e.value);
          assert rest.Some? ==> ([(j, e.value)] + rest.value)[1..] == rest.value;
        }
      }
    }
  }

  /** There is only one way to cover a line. */
  lemma {:induction false} CoversUnique(s: string, i: nat, t: seq<Slice>, u: seq<Slice>)
    requires i <= |s| && Covers(s, i, t) && Covers(s, i, u)
    ensures t == u
    decreases |t|
  {
    hide State;
    if t != [] {
      TokenStart(s, t[0].0, t[0].1);
    }
    if u != [] {
      TokenStart(s, u[0].0, u[0].1);
    }
    if t != [] && u != [] {
      CoversUnique(s, t[0].1, t[1..], u[1..]);
      assert t == [t[0]] + t[1..] && u == [u[0]] + u[1..];
    }
  }

  lemma TokenStart(s: string, a: nat, b: nat)
    requires a < b <= |s| && State(s[..a]) == Bare
    requires Operator(s[a..b]) || Word(s, a, b)
    ensures !Blank(s[a])
  {
    assert s[a..b][0] == s[a];
    if Operator(s[a..b]) {
      OperatorChars(s[a..b]);
    } else {
      assert !Breaks(s, a);
    }
  }

  /** The words of a line are its one cover, for every line that does not end in a
      pending escape. */
  lemma TokensExactly(s: string, toks: seq<Slice>)
    requires Nul !in s && !State(s).Escaped?
    ensures Tokens(s, 0) == Some(toks) <==> Covers(s, 0, toks)
  {
    assert s[..0] == "";
    TokensCover(s, 0);
    if Covers(s, 0, toks) {
      CoversUnique(s, 0, toks, Tokens(s, 0).value);
    }
  }

  /** The shortest line whose end the scan jumps over. */
  lemma LoneBackslash()
    ensures Tokens("\\", 0) == None
  {
  }

  // ------------------------------------------------------------------- the code

  method FindTokenStart(s: string, i0: nat) returns (i: nat)
    requires i0 <= |s|
    ensures i == SkipBlanks(s, i0)
  {
    i := i0;
    while i < |s| && Blank(s[i])
      invariant i0 <= i <= |s| && SkipBlanks(s, i) == SkipBlanks(s, i0)
    {
      i := i + 1;
    }
  }

  method FindOperatorEnd(s: string, i: nat) returns (e: nat)
    requires i < |s| && Nul !in s
    ensures e == i + OperatorLength(s, i)
  {
    if s[i] in "()\n" {
      return i + 1;
    }
    if s[i] in "<>;&|$" {
      var peek := At(s, i + 1);
      if peek == s[i] && peek != '$' {
        if peek == '<' && At(s, i + 2) == '-' {
          return i + 3;
        }
        return i + 2;
      } else if (peek == '&' && (s[i] == '>' || s[i] == '<')) || (peek == '>' && s[i] == '&')
                || (peek == '(' && s[i] == '$') {
        return i + 2;
      }
      if s[i] != '$' {
        return i + 1;
      }
    }
    return i;
  }

  /** The word loop; not ok: it has jumped over the end. */
  method FindWordEnd(s: string, start: nat) returns (i: nat, ok: bool)
    requires start < |s| && Nul !in s && !Meta(s[start])
    ensures ok == WordEnd(s, start, Nul).Some? && (ok ==> i == WordEnd(s, start, Nul).value)
  {
    i := start;
    var delimiter := Nul;
    if QuoteMark(s[i]) {
      delimiter := s[i];
      i := i + 1;
    }
    while i < |s|
      invariant start <= i <= |s| && WordEnd(s, i, delimiter) == WordEnd(s, start, Nul)
    {
      if s[i] == '\\' && At(s, i + 1) == '\n' {
        i := i + 2;
        continue;
      }
      if s[i] == '\\' && delimiter != '\'' && (delimiter != '"' || s[i] in "\\`\"$") {
        if i + 1 == |s| {
          return i, false;
        }
        i := i + 2;
        continue;
      }
      if delimiter != Nul && s[i] == delimiter {
        delimiter := Nul;
        i := i + 1;
        continue;
      }
      if delimiter == Nul && Meta(s[i]) {
        break;
      }
      if delimiter == Nul && QuoteMark(s[i]) {
        delimiter := s[i];
      }
      i := i + 1;
    }
    ok := true;
  }

  /** The texts of the tokens. */
  predicate Texts(s: string, toks: seq<Slice>, result: seq<string>) {
    |result| == |toks| && forall k | 0 <= k < |toks| ::
      toks[k].0 < toks[k].1 <= |s| && result[k] == s[toks[k].0..toks[k].1]
  }

  predicate Holds(tok: Slice, wind: int) {
    tok.0 <= wind < tok.1
  }

  /** ind is the token that holds position wind if there is one, and ind0 otherwise. */
  predicate Located(toks: seq<Slice>, wind: int, ind: int, ind0: int) {
    || (0 <= ind < |toks| && Holds(toks[ind], wind))
    || (ind == ind0 && forall k | 0 <= k < |toks| :: !Holds(toks[k], wind))
  }

  lemma OneMoreToken(s: string, toks: seq<Slice>, result: seq<string>, a: nat, b: nat, wind: int, ind: int, ind0: int)
    requires a < b <= |s| && Texts(s, toks, result) && Located(toks, wind, ind, ind0)
    ensures Texts(s, toks + [(a, b)], result + [s[a..b]])
    ensures Located(toks + [(a, b)], wind, if a <= wind < b then |result| else ind, ind0)
  {
  }

  /** `history_tokenize_internal`.  Not ok: the scan has left the line. */
  method HistoryTokenizeInternal(s: string, wind: int, ind0: int)
    returns (ok: bool, result: seq<string>, ghost toks: seq<Slice>, ind: int)
    requires Nul !in s
    ensures ok <==> !State(s).Escaped?
    ensures ok ==> Covers(s, 0, toks) && Texts(s, toks, result) && Located(toks, wind, ind, ind0)
  {
    hide State, SkipBlanks, TokenEnd, Covers, WordEnd, OperatorLength, Texts, Located;
    TokensCover0(s);
    var i := 0;
    result, toks, ind := [], [], ind0;
    NoTokens(s, wind, ind0);
    while i < |s|
      invariant i <= |s| && Tokens(s, 0) == Joined(toks, Tokens(s, i))
      invariant Texts(s, toks, result) && Located(toks, wind, ind, ind0)
      decreases |s| - i
    {
      TokensAt(s, i, toks);
      i := FindTokenStart(s, i);
      if i == |s| {
        return true, result, toks, ind;
      }
      var start := i;
      i := FindOperatorEnd(s, start);
      if i == start {
        NotMeta(s, start);
        i, ok := FindWordEnd(s, start);
        if !ok {
          TokenEndAt(s, start);
          return false, result, toks, ind;
        }
      }
      TokenEndAt(s, start);
      OneMoreToken(s, toks, result, start, i, wind, ind, ind0);
      TextsLength(s, toks, result);
      if start <= wind < i {
        ind := |result|;
      }
      result := result + [s[start..i]];
      toks := toks + [(start, i)];
    }
    TokensDone(s, toks);
    ok := true;
  }

  lemma NoTokens(s: string, wind: int, ind: int)
    ensures Texts(s, [], []) && Located([], wind, ind, ind)
  {
  }

  lemma TextsLength(s: string, toks: seq<Slice>, result: seq<string>)
    requires Texts(s, toks, result)
    ensures |result| == |toks|
  {
  }

  function Joined(toks: seq<Slice>, m: Maybe<seq<Slice>>): Maybe<seq<Slice>> {
    if m.None? then None else Some(toks + m.value)
  }

  lemma TokensCover0(s: string)
    requires Nul !in s
    ensures Tokens(s, 0) == None <==> State(s).Escaped?
    ensures Tokens(s, 0).Some? ==> Covers(s, 0, Tokens(s, 0).value)
    ensures Joined([], Tokens(s, 0)) == Tokens(s, 0)
  {
    assert s[..0] == "";
    TokensCover(s, 0);
    assert Tokens(s, 0).Some? ==> [] + Tokens(s, 0).value == Tokens(s, 0).value;
  }

  lemma TokensAt(s: string, i: nat, toks: seq<Slice>)
    requires i < |s|
    ensures var j, m := SkipBlanks(s, i), Joined(toks, Tokens(s, i));
      if j == |s| then m == Some(toks)
      else if TokenEnd(s, j).None? then m == None
      else m == Joined(toks + [(j, TokenEnd(s, j).value)], Tokens(s, TokenEnd(s, j).value))
  {
    hide TokenEnd, SkipBlanks;
    var j := SkipBlanks(s, i);
    assert toks + [] == toks;
    if j < |s| && TokenEnd(s, j).Some? {
      var e := TokenEnd(s, j).value;
      var rest := Tokens(s, e);
      assert rest.Some? ==> toks + ([(j, e)] + rest.value) == (toks + [(j, e)]) + rest.value;
    }
  }

  lemma TokenEndAt(s: string, i: nat)
    requires i < |s| && !Blank(s[i])
    ensures TokenEnd(s, i) == if OperatorLength(s, i) > 0 then Some(i + OperatorLength(s, i)) else WordEnd(s, i, Nul)
  {
  }

  lemma NotMeta(s: string, i: nat)
    requires i < |s| && !Blank(s[i]) && OperatorLength(s, i) == 0
    ensures !Meta(s[i])
  {
  }

  lemma TokensDone(s: string, toks: seq<Slice>)
    ensures Joined(toks, Tokens(s, |s|)) == Some(toks)
  {
    assert toks + [] == toks;
  }

  // ---------------------------------------------------------------- quote_breaks

  /** What `quote_breaks` writes for one character inside its single quotes. */
  function QuotedChar(c: char): string {
    if c == '\'' then "'\\''" else if Blank(c) || c == '\n' then ['\'', c, '\''] else [c]
  }

  function Body(s: string): string {
    if s == "" then "" else Body(s[..|s| - 1]) + QuotedChar(s[|s| - 1])
  }

  function QuoteBreaks(s: string): string {
    "'" + Body(s) + "'"
  }

  /** The text without its quoting: quote marks and escaping backslashes go. */
  function Unquoted(t: string): string {
    if t == "" then ""
    else
      var q, c := State(t[..|t| - 1]), t[|t| - 1];
      var next := Next(q, c);
      Unquoted(t[..|t| - 1]) + (if next == q || q.Escaped? then [c] else "")
  }

  lemma OneMore(t: string, c: char)
    ensures State(t + [c]) == Next(State(t), c)
    ensures Unquoted(t + [c]) ==
      Unquoted(t) + (if Next(State(t), c) == State(t) || State(t).Escaped? then [c] else "")
  {
    assert (t + [c])[..|t|] == t;
  }

  /** Where an unquoted metacharacter may stand. */
  predicate OnlyBreaks(t: string) {
    forall k | 0 <= k < |t| && Breaks(t, k) :: t[k] == '\n' || Blank(t[k])
  }

  lemma OnlyBreaksMore(t: string, c: char)
    requires OnlyBreaks(t) && (State(t) == Bare && Meta(c) ==> c == '\n' || Blank(c))
    ensures OnlyBreaks(t + [c])
  {
    var t' := t + [c];
    forall k | 0 <= k < |t'| && Breaks(t', k)
      ensures t'[k] == '\n' || Blank(t'[k])
    {
      if k < |t| {
        assert t'[..k] == t[..k];
        assert Breaks(t, k);
      } else {
        assert t'[..k] == t;
      }
    }
  }

  /** Inside the quotes, one character of the source: it is kept, and the quotes are
      open again behind it. */
  lemma QuotedCharKept(t: string, c: char)
    requires State(t) == Quoted('\'') && OnlyBreaks(t)
    ensures var t' := t + QuotedChar(c);
      State(t') == Quoted('\'') && Unquoted(t') == Unquoted(t) + [c] && OnlyBreaks(t')
  {
    hide State, Unquoted, OnlyBreaks;
    if c == '\'' || Blank(c) || c == '\n' {
      var t1 := t + ['\''];
      OneMore(t, '\'');
      OnlyBreaksMore(t, '\'');
      assert Unquoted(t) + "" == Unquoted(t);
      if c == '\'' {
        var t2 := t1 + ['\\'];
        var t3 := t2 + ['\''];
        OneMore(t1, '\\');
        OnlyBreaksMore(t1, '\\');
        OneMore(t2, '\'');
        OnlyBreaksMore(t2, '\'');
        OneMore(t3, '\'');
        OnlyBreaksMore(t3, '\'');
        assert (Unquoted(t) + [c]) + "" == Unquoted(t) + [c];
        assert t3 + ['\''] == t + QuotedChar(c);
      } else {
        var t2 := t1 + [c];
        OneMore(t1, c);
        OnlyBreaksMore(t1, c);
        OneMore(t2, '\'');
        OnlyBreaksMore(t2, '\'');
        assert (Unquoted(t) + [c]) + "" == Unquoted(t) + [c];
        assert t2 + ['\''] == t + QuotedChar(c);
      }
    } else {
      OneMore(t, c);
      OnlyBreaksMore(t, c);
    }
  }

  lemma {:induction false} BodyKept(s: string)
    ensures var t := "'" + Body(s);
      State(t) == Quoted('\'') && Unquoted(t) == s && OnlyBreaks(t)
    decreases |s|
  {
    hide State, Unquoted, OnlyBreaks, QuotedChar;
    if s == "" {
      Opening();
      assert "'" + "" == "'";
    } else {
      var front, c := s[..|s| - 1], s[|s| - 1];
      BodyKept(front);
      QuotedCharKept("'" + Body(front), c);
      assert ("'" + Body(front)) + QuotedChar(c) == "'" + Body(s);
      assert front + [c] == s;
    }
  }

  lemma Opening()
    ensures State("'") == Quoted('\'') && Unquoted("'") == "" && OnlyBreaks("'")
  {
    assert "'"[..0] == "";
  }

  /** Quoting and then taking the quotes away is the identity, for every text; only
      blanks and newlines are left unquoted, so a shell splits the result at those
      and nowhere else; no quote is left open. */
  lemma QuoteBreaksKeeps(s: string)
    ensures Unquoted(QuoteBreaks(s)) == s && OnlyBreaks(QuoteBreaks(s)) && State(QuoteBreaks(s)) == Bare
  {
    hide Unquoted, OnlyBreaks, Body, State;
    var t := "'" + Body(s);
    BodyKept(s);
    OneMore(t, '\'');
    OnlyBreaksMore(t, '\'');
    assert Unquoted(t) + "" == Unquoted(t);
  }

  lemma {:induction false} BodyConcat(a: string, b: string)
    ensures Body(a + b) == Body(a) + Body(b)
    decreases |b|
  {
    hide QuotedChar;
    if b == "" {
      assert a + b == a;
    } else {
      BodyConcat(a, b[..|b| - 1]);
      assert (a + b)[..|a + b| - 1] == a + b[..|b| - 1];
    }
  }

  lemma {:induction false} BodyChars(s: string, c: char)
    requires c in Body(s)
    ensures c in s || c == '\'' || c == '\\'
    decreases |s|
  {
    if s != "" && c in Body(s[..|s| - 1]) {
      BodyChars(s[..|s| - 1], c);
    }
  }

  lemma BodyOfOne(c: char)
    ensures Body([c]) == QuotedChar(c)
  {
    assert [c][..0] == "" && Body("") == "";
  }

  /** Every blank and newline is left unquoted, between two quoted texts. */
  lemma BreaksLeftOut(a: string, c: char, b: string)
    requires c in " \t\n"
    ensures QuoteBreaks(a + [c] + b) == QuoteBreaks(a) + [c] + QuoteBreaks(b)
    ensures Breaks(QuoteBreaks(a + [c] + b), |QuoteBreaks(a)|)
  {
    hide Body, State;
    BodyConcat(a, [c]);
    BodyConcat(a + [c], b);
    BodyOfOne(c);
    QuoteBreaksKeeps(a);
    assert QuoteBreaks(a + [c] + b) == QuoteBreaks(a) + ([c] + QuoteBreaks(b));
    assert QuoteBreaks(a + [c] + b)[..|QuoteBreaks(a)|] == QuoteBreaks(a);
  }

  /** A text without any is one word. */
  lemma WordIsWhole(w: string)
    requires ' ' !in w && '\t' !in w && '\n' !in w
    ensures forall k | 0 <= k < |QuoteBreaks(w)| :: !Breaks(QuoteBreaks(w), k)
  {
    hide Body, State;
    QuoteBreaksKeeps(w);
    var t := QuoteBreaks(w);
    forall k | 0 <= k < |t|
      ensures !Breaks(t, k)
    {
      if t[k] in Body(w) {
        BodyChars(w, t[k]);
      }
      assert t[k] in Body(w) || t[k] == '\'' by { assert 0 < k < |t| - 1 ==> t[k] == Body(w)[k - 1]; }
    }
  }

  /** `quote_breaks`: the length counted in the first pass is what the second needs. */
  method QuoteBreaksOf(s: string) returns (ret: string)
    ensures ret == QuoteBreaks(s)
  {
    hide Body, QuotedChar;
    var len := CountLength(s);
    var buf := new char[len];
    var r, p := 1, 0;
    buf[0] := '\'';
    EmptyBody();
    assert s[..0] == "" && s[..|s|] == s && buf[..1] == "'" + "";
    while p < |s|
      invariant p <= |s| && r == 1 + |Body(s[..p])| && len == |Body(s)| + 3 == buf.Length && r < len
      invariant buf[..r] == "'" + Body(s[..p])
    {
      LongerBody(s, p + 1);
      BodySnoc(s, p);
      ghost var before := buf[..r];
      r := WriteQuoted(s[p], buf, r);
      assert before + QuotedChar(s[p]) == "'" + Body(s[..p + 1]);
      p := p + 1;
    }
    buf[r] := '\'';
    ret := buf[..r + 1];
  }

  method CountLength(s: string) returns (len: nat)
    ensures len == |Body(s)| + 3
  {
    hide Body;
    len := 3;
    var p := 0;
    EmptyBody();
    assert s[..0] == "" && s[..|s|] == s;
    while p < |s|
      invariant p <= |s| && len == |Body(s[..p])| + 3
    {
      BodySnoc(s, p);
      if s[p] == '\'' {
        len := len + 3;
      } else if Blank(s[p]) || s[p] == '\n' {
        len := len + 2;
      }
      p, len := p + 1, len + 1;
    }
  }

  method WriteQuoted(c: char, buf: array<char>, r0: nat) returns (r: nat)
    requires r0 + |QuotedChar(c)| <= buf.Length
    modifies buf
    ensures r == r0 + |QuotedChar(c)| && buf[..r] == old(buf[..r0]) + QuotedChar(c)
  {
    r := r0;
    if c == '\'' {
      buf[r], buf[r + 1], buf[r + 2], buf[r + 3] := '\'', '\\', '\'', '\'';
      r := r + 4;
    } else if Blank(c) || c == '\n' {
      buf[r], buf[r + 1], buf[r + 2] := '\'', c, '\'';
      r := r + 3;
    } else {
      buf[r] := c;
      r := r + 1;
    }
  }

  lemma EmptyBody()
    ensures Body("") == ""
  {
  }

  lemma BodySnoc(s: string, p: nat)
    requires p < |s|
    ensures Body(s[..p + 1]) == Body(s[..p]) + QuotedChar(s[p])
  {
    assert s[..p + 1][..p] == s[..p];
  }

  lemma {:induction false} LongerBody(s: string, k: nat)
    requires k <= |s|
    ensures |Body(s[..k])| <= |Body(s)|
    decreases |s| - k
  {
    assert s[..|s|] == s;
    if k < |s| {
      assert s[..k + 1][..k] == s[..k];
      LongerBody(s, k + 1);
    }
  }

  // ------------------------------------------------------------- the character classes

  /** The metacharacters are the blanks and the operators of one character. */
  lemma MetasAre(c: char)
    ensures Meta(c) <==> Blank(c) || Operator([c])
  {
  }

  lemma {:induction false} StaysQuoted(t: string, w: string, mark: char)
    requires State(t) == Quoted(mark) && mark !in w && (mark == '\'' || '\\' !in w)
    ensures State(t + w) == Quoted(mark)
    decreases |w|
  {
    hide State;
    if w == "" {
      assert t + w == t;
    } else {
      StaysQuoted(t, w[..|w| - 1], mark);
      OneMore(t + w[..|w| - 1], w[|w| - 1]);
      assert t + w == (t + w[..|w| - 1]) + [w[|w| - 1]];
    }
  }

  /** A text in quote marks of any kind stays in one word, and so does an escaped
      character; behind them nothing is quoted. */
  lemma QuotedTextHolds(t: string, mark: char, w: string)
    requires State(t) == Bare && mark in "\"'`" && mark !in w && (mark == '\'' || '\\' !in w)
    ensures var q := t + [mark] + w + [mark];
      State(q) == Bare && forall k | |t| <= k < |q| :: !Breaks(q, k)
  {
    hide State;
    var q := t + [mark] + w + [mark];
    OneMore(t, mark);
    StaysQuoted(t + [mark], w, mark);
    OneMore(t + [mark] + w, mark);
    forall k | |t| <= k < |q|
      ensures !Breaks(q, k)
    {
      if k == |t| {
        assert q[..k] == t;
      } else {
        var n := k - |t| - 1;
        StaysQuoted(t + [mark], w[..n], mark);
        assert q[..k] == t + [mark] + w[..n];
      }
    }
  }

  lemma EscapedHolds(t: string, c: char)
    requires State(t) == Bare
    ensures var q := t + ['\\', c];
      State(q) == Bare && !Breaks(q, |t|) && !Breaks(q, |t| + 1)
  {
    hide State;
    OneMore(t, '\\');
    OneMore(t + ['\\'], c);
    var q := t + ['\\', c];
    assert q[..|t|] == t && q[..|t| + 1] == t + ['\\'] && q == t + ['\\'] + [c];
  }
}
