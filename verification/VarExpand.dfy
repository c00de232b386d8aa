/** Expanding $VAR and ${VAR} in a path, with protection against variables that
    refer to themselves: libs/kpathsea/variable.c. */
module VarExpand {
  import Strtol

  datatype Maybe<T> = None | Some(value: T)

  // ------------------------------------------------------------ one construct

  predicate IsVarChar(c: char) {
    'a' <= c <= 'z' || 'A' <= c <= 'Z' || '0' <= c <= '9' || c == '_'
  }

  /** What stands at one position of a source: a character to copy, a variable,
      a construct to ignore, or a `$` with nothing after it. */
  datatype Construct = Copy(c: char) | Var(name: string) | Ignored | Dangling

  function NameEnd(s: string, k: nat): (e: nat)
    requires k <= |s|
    ensures k <= e <= |s|
    ensures (forall i | k <= i < e :: IsVarChar(s[i])) && (e < |s| ==> !IsVarChar(s[e]))
    decreases |s| - k
  {
    if k < |s| && IsVarChar(s[k]) then NameEnd(s, k + 1) else k
  }

  function BraceEnd(s: string, k: nat): (e: nat)
    requires k <= |s|
    ensures k <= e <= |s|
    ensures (forall i | k <= i < e :: s[i] != '}') && (e < |s| ==> s[e] == '}')
    decreases |s| - k
  {
    if k < |s| && s[k] != '}' then BraceEnd(s, k + 1) else k
  }

  /** The construct at k. */
  function At(s: string, k: nat): Construct
    requires k < |s|
  {
    if s[k] != '$' then Copy(s[k])
    else if k + 1 == |s| then Dangling
    else if IsVarChar(s[k + 1]) then Var(s[k + 1..NameEnd(s, k + 1)])
    else if s[k + 1] != '{' then Ignored
    else
      var e := BraceEnd(s, k + 2);
      if e == |s| then Ignored else Var(s[k + 2..e])
  }

  /** Where scanning goes on after the construct at k. */
  function After(s: string, k: nat): (j: nat)
    requires k < |s|
    ensures k < j <= |s|
  {
    if s[k] != '$' || k + 1 == |s| then k + 1
    else if IsVarChar(s[k + 1]) then NameEnd(s, k + 1)
    else if s[k + 1] != '{' then k + 2
    else
      var e := BraceEnd(s, k + 2);
      if e == |s| then e else e + 1
  }

  // --------------------------------------------------------------- the meaning

  type Env = map<string, string>

  function Joined(a: string, b: Maybe<string>): Maybe<string> {
    if b.None? then None else Some(a + b.value)
  }

  lemma JoinedNothing(m: Maybe<string>)
    ensures Joined("", m) == m
  {
    assert m.Some? ==> "" + m.value == m.value;
  }

  /** The meaning of s from k on: each reference to a defined variable stands for
      the meaning of its value where that variable is not defined.  None: some
      scan ran past the end of its text. */
  function Meaning(env: Env, s: string, k: nat): Maybe<string>
    requires k <= |s|
    decreases |env|, 1, |s| - k
  {
    if k == |s| then Some("")
    else if At(s, k).Dangling? then None
    else
      var m := Piece(env, At(s, k));
      if m.None? then None else Joined(m.value, Meaning(env, s, After(s, k)))
  }

  /** The text one construct stands for. */
  function Piece(env: Env, c: Construct): Maybe<string>
    decreases |env|, 0
  {
    match c
    case Copy(x) => Some([x])
    case Var(name) =>
      if name in env then
        Smaller(env, name);
        Meaning(env - {name}, env[name], 0)
      else Some("")
    case Ignored => Some("")
    case Dangling => None
  }

  lemma Smaller(env: Env, name: string)
    requires name in env
    ensures |env - {name}| < |env|
  {
    var rest := env - {name};
    assert env == rest[name := env[name]];
    assert rest.Keys + {name} == env.Keys;
    assert |rest.Keys| == |rest| && |env.Keys| == |env|;
  }

  // ------------------------------------------------------------------- the code

  datatype Entry = Entry(name: string, expanding: bool)

  predicate Distinct(t: seq<Entry>) {
    forall i, j | 0 <= i < j < |t| :: t[i].name != t[j].name
  }

  /** The variables marked as being expanded. */
  function Marked(t: seq<Entry>): set<string> {
    set e | e in t && e.expanding :: e.name
  }

  class Expander {
    const shell: Env
    const config: Env
    var expansions: seq<Entry>

    ghost predicate Valid() reads this {
      Distinct(expansions)
    }

    constructor (shell: Env, config: Env)
      ensures Valid() && this.shell == shell && this.config == config && Marked(expansions) == {}
    {
      this.shell, this.config, expansions := shell, config, [];
    }

    /** Environment variables hide configuration file settings. */
    ghost function Defined(): (env: Env)
      ensures forall name :: name in env <==> name in shell || name in config
      ensures forall name | name in shell :: env[name] == shell[name]
      ensures forall name | name in config && name !in shell :: env[name] == config[name]
    {
      config + shell
    }

    /** The definitions a reference can still see. */
    ghost function Visible(): Env reads this {
      Defined() - Marked(expansions)
    }

    method Expanding(name: string, xp: bool)
      requires Valid()
      modifies this
      ensures Valid()
      ensures Marked(expansions) == if xp then old(Marked(expansions)) + {name} else old(Marked(expansions)) - {name}
    {
      ghost var before := expansions;
      var e := 0;
      while e < |expansions|
        invariant e <= |expansions| && expansions == before
        invariant forall i | 0 <= i < e :: expansions[i].name != name
      {
        if expansions[e].name == name {
          expansions := expansions[e := Entry(name, xp)];
          MarkedUpdate(before, e, Entry(name, xp));
          return;
        }
        e := e + 1;
      }
      expansions := expansions + [Entry(name, xp)];
      MarkedAdd(before, Entry(name, xp));
    }

    method ExpandingP(name: string) returns (r: bool)
      requires Valid()
      ensures r == (name in Marked(expansions))
    {
      var e := 0;
      while e < |expansions|
        invariant e <= |expansions|
        invariant forall i | 0 <= i < e :: expansions[i].name != name
      {
        if expansions[e].name == name {
          assert expansions[e] in expansions;
          return expansions[e].expanding;
        }
        e := e + 1;
      }
      return false;
    }

    /** `expand`: the variable src[start..end], appended to the expansion. */
    method Expand(expansion: string, src: string, start: nat, end: nat) returns (r: Maybe<string>)
      requires Valid() && start <= end <= |src|
      modifies this
      ensures Valid()
      ensures var m := Piece(old(Visible()), Var(src[start..end]));
        r == if m.None? then None else Some(expansion + m.value)
      ensures r.Some? ==> Marked(expansions) == old(Marked(expansions))
      decreases |Visible()|, 0
    {
      hide Marked, Meaning;
      assert expansion + "" == expansion;
      var name := src[start..end];
      var busy := ExpandingP(name);
      if busy {
        return Some(expansion);
      }
      var value: Maybe<string> := None;
      if name in shell {
        value := Some(shell[name]);
      } else if name in config {
        value := Some(config[name]);
      }
      if value.Some? {
        assert name in Visible() && Visible()[name] == value.value;
        ghost var env := Visible();
        Smaller(env, name);
        ghost var marks := Marked(expansions);
        MarkMore(Defined(), marks, name);
        Expanding(name, true);
        assert Visible() == env - {name};
        var v := VarExpand(value.value);
        if v.None? {
          return None;
        }
        Expanding(name, false);
        return Some(expansion + v.value);
      }
      return Some(expansion);
    }

    method FindNameEnd(src: string, s: nat) returns (e: nat)
      requires s < |src| && IsVarChar(src[s])
      ensures e == NameEnd(src, s)
    {
      e := s + 1;
      while e < |src| && IsVarChar(src[e])
        invariant s < e <= |src| && NameEnd(src, e) == NameEnd(src, s)
      {
        e := e + 1;
      }
    }

    method FindBraceEnd(src: string, s: nat) returns (e: nat)
      requires s <= |src|
      ensures e == BraceEnd(src, s)
    {
      e := s;
      while e < |src| && src[e] != '}'
        invariant s <= e <= |src| && BraceEnd(src, e) == BraceEnd(src, s)
      {
        e := e + 1;
      }
    }

    /** The reference behind a dollar: what comes of it, and the last character of it. */
    method ExpandAt(expansion: string, src: string, s0: nat) returns (r: Maybe<string>, s: nat)
      requires Valid() && 0 < s0 < |src| && src[s0 - 1] == '$'
      modifies this
      ensures Valid() && s + 1 == After(src, s0 - 1)
      ensures var m := Piece(old(Visible()), At(src, s0 - 1));
        r == if m.None? then None else Some(expansion + m.value)
      ensures r.Some? ==> Marked(expansions) == old(Marked(expansions))
      decreases |Visible()|, 1
    {
      hide Meaning, NameEnd, BraceEnd, Marked;
      s := s0;
      assert expansion + "" == expansion;
      r := Some(expansion);
      if IsVarChar(src[s]) {
        var varEnd := FindNameEnd(src, s);
        r := Expand(expansion, src, s, varEnd);
        s := varEnd - 1;
      } else if src[s] == '{' {
        s := s + 1;
        var varEnd := FindBraceEnd(src, s);
        if varEnd == |src| {
          s := varEnd - 1;
        } else {
          r := Expand(expansion, src, s, varEnd);
          s := varEnd;
        }
      }
    }

    /** `kpse_var_expand`: terminates for all definitions, circular ones included,
        and leaves the marks as they were. */
    method VarExpand(src: string) returns (r: Maybe<string>)
      requires Valid()
      modifies this
      ensures Valid()
      ensures r == Meaning(old(Visible()), src, 0)
      ensures r.Some? ==> Marked(expansions) == old(Marked(expansions))
      decreases |Visible()|, 2
    {
      hide Meaning, Piece, NameEnd, BraceEnd, Marked;
      ghost var env := Visible();
      var expansion := "";
      var s := 0;
      JoinedNothing(Meaning(env, src, 0));
      while s < |src|
        invariant s <= |src|
        invariant Valid() && Marked(expansions) == old(Marked(expansions)) && Visible() == env
        invariant Meaning(env, src, 0) == Joined(expansion, Meaning(env, src, s))
        decreases |src| - s
      {
        ghost var k := s;
        assert expansion + "" == expansion;
        MeaningStep(env, src, k, expansion);
        PlainPiece(env, At(src, k));
        if src[s] == '$' {
          s := s + 1;
          if s == |src| {
            return None;
          }
          var m;
          m, s := ExpandAt(expansion, src, s);
          if m.None? {
            return None;
          }
          expansion := m.value;
        } else {
          expansion := expansion + [src[s]];
        }
        s := s + 1;
        assert s == After(src, k);
      }
      MeaningEnd(env, src, expansion);
      return Some(expansion);
    }
  }

  lemma MarkMore(env: Env, marks: set<string>, name: string)
    requires name !in marks
    ensures env - (marks + {name}) == env - marks - {name}
    ensures marks + {name} - {name} == marks
  {
  }

  lemma MeaningEnd(env: Env, s: string, out: string)
    ensures Joined(out, Meaning(env, s, |s|)) == Some(out)
  {
    assert out + "" == out;
  }

  lemma PlainPiece(env: Env, c: Construct)
    ensures c.Copy? ==> Piece(env, c) == Some([c.c])
    ensures c.Ignored? ==> Piece(env, c) == Some("")
    ensures c.Dangling? ==> Piece(env, c) == None
  {
  }

  lemma MeaningStep(env: Env, s: string, k: nat, out: string)
    requires k < |s|
    ensures var m := Piece(env, At(s, k));
      Joined(out, Meaning(env, s, k)) == if m.None? then None else Joined(out + m.value, Meaning(env, s, After(s, k)))
  {
    var m, rest := Piece(env, At(s, k)), Meaning(env, s, After(s, k));
    assert m.Some? && rest.Some? ==> out + (m.value + rest.value) == (out + m.value) + rest.value;
  }

  lemma MarkedUpdate(t: seq<Entry>, e: nat, x: Entry)
    requires Distinct(t) && e < |t| && t[e].name == x.name
    ensures Distinct(t[e := x])
    ensures Marked(t[e := x]) == if x.expanding then Marked(t) + {x.name} else Marked(t) - {x.name}
  {
    var t' := t[e := x];
    assert x in t' by { assert t'[e] == x; }
    forall y | y in t && y.name != x.name
      ensures y in t'
    {
      var i :| 0 <= i < |t| && t[i] == y;
      assert t'[i] == y;
    }
  }

  lemma MarkedAdd(t: seq<Entry>, x: Entry)
    requires Distinct(t) && forall i | 0 <= i < |t| :: t[i].name != x.name
    ensures Distinct(t + [x])
    ensures Marked(t + [x]) == if x.expanding then Marked(t) + {x.name} else Marked(t) - {x.name}
  {
  }

  // ------------------------------------------------------ without any circularity

  /** The variables the scan of s comes upon from k on. */
  function Names(s: string, k: nat): set<string>
    requires k <= |s|
    decreases |s| - k
  {
    if k == |s| then {}
    else (if At(s, k).Var? then {At(s, k).name} else {}) + Names(s, After(s, k))
  }

  /** A rank that falls along every reference. */
  ghost predicate Acyclic(env: Env, rank: map<string, nat>) {
    forall v | v in env :: v in rank && Below(env, rank, env[v], rank[v])
  }

  ghost predicate Below(env: Env, rank: map<string, nat>, s: string, n: nat) {
    forall v | v in Names(s, 0) && v in env && v in rank :: rank[v] < n
  }

  /** Plain recursive substitution, with nothing removed from the definitions. */
  ghost function Substituted(env: Env, rank: map<string, nat>, s: string, k: nat, n: nat): Maybe<string>
    requires Acyclic(env, rank) && k <= |s|
    requires forall v | v in Names(s, k) && v in env :: rank[v] < n
    decreases n, |s| - k
  {
    if k == |s| then Some("")
    else
      var rest := Substituted(env, rank, s, After(s, k), n);
      match At(s, k)
      case Copy(c) => Joined([c], rest)
      case Var(v) =>
        if v !in env then rest
        else
          assert v in Names(s, k);
          var m := Substituted(env, rank, env[v], 0, rank[v]);
          if m.None? then None else Joined(m.value, rest)
      case Ignored => rest
      case Dangling => None
  }

  lemma {:induction false} SubstitutedIsMeaning(env: Env, rank: map<string, nat>, seen: Env, s: string, k: nat, n: nat)
    requires Acyclic(env, rank) && k <= |s|
    requires forall v | v in Names(s, k) && v in env :: rank[v] < n
    requires seen.Keys <= env.Keys && forall v | v in env && rank[v] < n :: v in seen
    requires forall v | v in seen :: seen[v] == env[v]
    ensures Meaning(seen, s, k) == Substituted(env, rank, s, k, n)
    decreases n, |s| - k
  {
    if k < |s| {
      JoinedNothing(Meaning(seen, s, After(s, k)));
      SubstitutedIsMeaning(env, rank, seen, s, After(s, k), n);
      if At(s, k).Var? && At(s, k).name in env {
        var v := At(s, k).name;
        assert v in Names(s, k);
        SubstitutedIsMeaning(env, rank, seen - {v}, env[v], 0, rank[v]);
      }
    }
  }

  /** Without circular definitions the marks change nothing. */
  lemma AcyclicIsPlain(env: Env, rank: map<string, nat>, s: string, n: nat)
    requires Acyclic(env, rank) && Below(env, rank, s, n)
    requires forall v | v in env :: rank[v] < n
    ensures Meaning(env, s, 0) == Substituted(env, rank, s, 0, n)
  {
    SubstitutedIsMeaning(env, rank, env, s, 0, n);
  }

  // ------------------------------------------------- when a scan runs past its end

  predicate Dangles(s: string, k: nat)
    requires k <= |s|
    decreases |s| - k
  {
    k < |s| && (At(s, k).Dangling? || Dangles(s, After(s, k)))
  }

  /** A chain of references from s to a text that ends in a bare `$`. */
  predicate Chain(env: Env, s: string, path: seq<string>)
    decreases |path|
  {
    if path == [] then Dangles(s, 0)
    else path[0] in env && path[0] in Names(s, 0) && Chain(env, env[path[0]], path[1..])
  }

  /** The scan stays inside its texts exactly when no chain of references, from
      the source on, leads to a text whose last construct is a bare `$`. */
  lemma RunsPastIff(env: Env, s: string)
    ensures Meaning(env, s, 0).None? ==> exists path :: Chain(env, s, path)
    ensures (exists path :: Chain(env, s, path)) ==> Meaning(env, s, 0).None?
  {
    if Meaning(env, s, 0) == None {
      var path := RunPast(env, s, 0);
      assert Chain(env, s, path);
    }
    forall path | Chain(env, s, path)
      ensures Meaning(env, s, 0) == None
    {
      ChainRunsPast(env, s, path);
    }
  }

  /** The shortest source that is read past its end. */
  lemma BareDollar()
    ensures Meaning(map[], "$", 0) == None
  {
  }

  lemma {:induction false} RunPast(env: Env, s: string, k: nat) returns (path: seq<string>)
    requires k <= |s| && Meaning(env, s, k) == None
    ensures if path == [] then Dangles(s, k)
            else path[0] in env && path[0] in Names(s, k) && Chain(env, env[path[0]], path[1..])
    decreases |env|, |s| - k
  {
    path := [];
    if !At(s, k).Dangling? {
      if Piece(env, At(s, k)).None? {
        var v := At(s, k).name;
        Smaller(env, v);
        path := RunPast(env - {v}, env[v], 0);
        WiderChain(env, env - {v}, env[v], path);
        path := [v] + path;
        assert path[1..] == path[1..];
      } else {
        path := RunPast(env, s, After(s, k));
      }
    }
  }

  lemma {:induction false} WiderChain(env: Env, part: Env, s: string, path: seq<string>)
    requires Chain(part, s, path) && part.Keys <= env.Keys && forall v | v in part :: part[v] == env[v]
    ensures Chain(env, s, path)
    decreases |path|
  {
    if path != [] {
      WiderChain(env, part, part[path[0]], path[1..]);
    }
  }

  lemma {:induction false} ChainSuffix(env: Env, s: string, path: seq<string>, j: nat)
    requires Chain(env, s, path) && j < |path|
    ensures path[j] in env && Chain(env, env[path[j]], path[j + 1..])
    decreases |path|
  {
    if j > 0 {
      ChainSuffix(env, env[path[0]], path[1..], j - 1);
      assert path[1..][j..] == path[j + 1..];
    }
  }

  lemma {:induction false} ChainWithout(env: Env, s: string, path: seq<string>, v: string)
    requires Chain(env, s, path) && v !in path
    ensures Chain(env - {v}, s, path)
    decreases |path|
  {
    if path != [] {
      ChainWithout(env, env[path[0]], path[1..], v);
    }
  }

  function LastAt(path: seq<string>, v: string): (j: nat)
    requires v in path
    ensures j < |path| && path[j] == v && v !in path[j + 1..]
  {
    if path[|path| - 1] == v then |path| - 1
    else
      var j := LastAt(path[..|path| - 1], v);
      assert path[j + 1..] == path[..|path| - 1][j + 1..] + [path[|path| - 1]];
      j
  }

  lemma {:induction false} DanglesRunsPast(env: Env, s: string, k: nat)
    requires k <= |s| && Dangles(s, k)
    ensures Meaning(env, s, k) == None
    decreases |s| - k
  {
    if !At(s, k).Dangling? {
      DanglesRunsPast(env, s, After(s, k));
    }
  }

  lemma {:induction false} NameRunsPast(env: Env, s: string, k: nat, v: string)
    requires k <= |s| && v in Names(s, k) && v in env && Meaning(env - {v}, env[v], 0) == None
    ensures Meaning(env, s, k) == None
    decreases |s| - k
  {
    if At(s, k) != Var(v) {
      NameRunsPast(env, s, After(s, k), v);
    }
  }

  lemma {:induction false} ChainRunsPast(env: Env, s: string, path: seq<string>)
    requires Chain(env, s, path)
    ensures Meaning(env, s, 0) == None
    decreases |path|
  {
    if path == [] {
      DanglesRunsPast(env, s, 0);
    } else {
      var v := path[0];
      var j := LastAt(path, v);
      ChainSuffix(env, s, path, j);
      ChainWithout(env, env[v], path[j + 1..], v);
      ChainRunsPast(env - {v}, env[v], path[j + 1..]);
      NameRunsPast(env, s, 0, v);
    }
  }

  // ------------------------------------------------------------ references as written

  /** The characters of names are the letters and digits, and the underscore. */
  lemma NameCharacters(c: char)
    ensures IsVarChar(c) <==> c == '_' || Strtol.Digit(c) < 36
  {
  }

  lemma {:induction false} NameEndIs(s: string, k: nat, e: nat)
    requires k <= e <= |s| && (forall i | k <= i < e :: IsVarChar(s[i])) && (e < |s| ==> !IsVarChar(s[e]))
    ensures NameEnd(s, k) == e
    decreases e - k
  {
    if k < e {
      NameEndIs(s, k + 1, e);
    }
  }

  lemma {:induction false} BraceEndIs(s: string, k: nat, e: nat)
    requires k <= e <= |s| && (forall i | k <= i < e :: s[i] != '}') && (e < |s| ==> s[e] == '}')
    ensures BraceEnd(s, k) == e
    decreases e - k
  {
    if k < e {
      BraceEndIs(s, k + 1, e);
    }
  }

  /** A construct does not depend on what is in front of it. */
  lemma SameConstruct(s: string, d: nat, k: nat)
    requires d + k < |s|
    ensures At(s, d + k) == At(s[d..], k) && After(s, d + k) == d + After(s[d..], k)
  {
    hide NameEnd, BraceEnd;
    var u := s[d..];
    if k + 1 < |u| {
      assert u[k] == s[d + k] && u[k + 1] == s[d + k + 1];
      SameNameEnd(s, d, k + 1);
      if u[k + 1] == '{' {
        SameBraceEnd(s, d, k + 2);
      }
    }
  }

  lemma SameNameEnd(s: string, d: nat, k: nat)
    requires d + k <= |s|
    ensures var e := NameEnd(s[d..], k); NameEnd(s, d + k) == d + e && s[d..][k..e] == s[d + k..d + e]
  {
    hide NameEnd;
    var u := s[d..];
    var e := NameEnd(u, k);
    assert forall i | k <= i < |u| :: u[i] == s[d + i];
    NameEndIs(s, d + k, d + e);
  }

  lemma SameBraceEnd(s: string, d: nat, k: nat)
    requires d + k <= |s|
    ensures var e := BraceEnd(s[d..], k); BraceEnd(s, d + k) == d + e && s[d..][k..e] == s[d + k..d + e]
  {
    hide BraceEnd;
    var u := s[d..];
    var e := BraceEnd(u, k);
    assert forall i | k <= i < |u| :: u[i] == s[d + i];
    BraceEndIs(s, d + k, d + e);
  }

  lemma {:induction false} MeaningBehind(env: Env, s: string, d: nat, k: nat)
    requires d + k <= |s|
    ensures Meaning(env, s, d + k) == Meaning(env, s[d..], k)
    decreases |s| - k
  {
    hide At, After, Piece;
    if d + k < |s| {
      SameConstruct(s, d, k);
      MeaningBehind(env, s, d, After(s[d..], k));
    }
  }

  /** What a reference to the variable stands for: the meaning of its value, in which it
      is not defined, or nothing. */
  function ValueOf(env: Env, name: string): Maybe<string> {
    if name in env then Meaning(env - {name}, env[name], 0) else Some("")
  }

  function Both(a: Maybe<string>, b: Maybe<string>): Maybe<string> {
    if a.None? || b.None? then None else Some(a.value + b.value)
  }

  /** A text that begins with one construct. */
  lemma MeaningOfFirst(env: Env, s: string, j: nat)
    requires s != "" && j == After(s, 0) && !At(s, 0).Dangling?
    ensures Meaning(env, s, 0) == Both(Piece(env, At(s, 0)), Meaning(env, s[j..], 0))
  {
    hide At, After, Piece;
    MeaningBehind(env, s, j, 0);
  }

  /** ${NAME} stands for the value of NAME. */
  lemma BracedName(env: Env, name: string, u: string)
    requires '}' !in name
    ensures Meaning(env, "${" + name + "}" + u, 0) == Both(ValueOf(env, name), Meaning(env, u, 0))
  {
    hide Meaning;
    var s, e := "${" + name + "}" + u, 2 + |name|;
    assert forall i | 2 <= i < e :: s[i] == name[i - 2];
    BraceEndIs(s, 2, e);
    assert s[2..e] == name && s[e + 1..] == u;
    assert !IsVarChar('{');
    MeaningOfFirst(env, s, e + 1);
  }

  /** So does $NAME, where the name ends. */
  lemma BareName(env: Env, name: string, u: string)
    requires name != "" && (forall i | 0 <= i < |name| :: IsVarChar(name[i])) && (u != "" ==> !IsVarChar(u[0]))
    ensures Meaning(env, "$" + name + u, 0) == Both(ValueOf(env, name), Meaning(env, u, 0))
  {
    hide Meaning;
    var s, e := "$" + name + u, 1 + |name|;
    assert forall i | 1 <= i < e :: s[i] == name[i - 1];
    NameEndIs(s, 1, e);
    assert s[1..e] == name && s[e..] == u;
    MeaningOfFirst(env, s, e);
  }

  /** Every other character is copied; a dollar before a character that begins no
      reference is dropped with it. */
  lemma OtherText(env: Env, c: char, u: string)
    ensures c != '$' ==> Meaning(env, [c] + u, 0) == Both(Some([c]), Meaning(env, u, 0))
    ensures !IsVarChar(c) && c != '{' ==> Meaning(env, ['$', c] + u, 0) == Meaning(env, u, 0)
  {
    hide Meaning;
    if c != '$' {
      assert ([c] + u)[1..] == u;
      MeaningOfFirst(env, [c] + u, 1);
    }
    if !IsVarChar(c) && c != '{' {
      assert (['$', c] + u)[2..] == u;
      MeaningOfFirst(env, ['$', c] + u, 2);
      var m := Meaning(env, u, 0);
      assert m.Some? ==> "" + m.value == m.value;
    }
  }

  /** A brace that is not closed swallows the rest. */
  lemma UnclosedBrace(env: Env, u: string)
    requires '}' !in u
    ensures Meaning(env, "${" + u, 0) == Some("")
  {
    hide Meaning;
    var s := "${" + u;
    assert forall i | 2 <= i < |s| :: s[i] == u[i - 2];
    BraceEndIs(s, 2, |s|);
    assert !IsVarChar('{') && s[|s|..] == "";
    MeaningOfFirst(env, s, |s|);
    MeaningOfNothing(env);
    assert "" + "" == "";
  }

  lemma MeaningOfNothing(env: Env)
    ensures Meaning(env, "", 0) == Some("")
  {
  }
}
