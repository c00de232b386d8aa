/** The written form of key sequences: `rl_translate_keyseq` and
    `_rl_untranslate_macro_value` of libs/readline/bind.c, for bytes 1 to 255,
    on machines where a plain `char` is signed and where it is not. */
module KeySyntax {

  datatype Maybe<T> = None | Some(value: T)

  const Esc: char := 27 as char
  const Rubout: char := 127 as char
  const ControlBackslash: char := 28 as char

  predicate Keys(s: string) {
    forall i | 0 <= i < |s| :: 0 < s[i] as int < 256
  }

  function ToUpper(c: char): char {
    if 'a' <= c <= 'z' then (c as int - 32) as char else c
  }

  function ToLower(c: char): char {
    if 'A' <= c <= 'Z' then (c as int + 32) as char else c
  }

  /** The five low bits. */
  function Ctrl(c: char): char {
    (c as int % 32) as char
  }

  // ------------------------------------------------------------------ reading

  function Put(c: char, rest: Maybe<string>): Maybe<string> {
    if rest.None? then None else Some([c] + rest.value)
  }

  /** A control or meta prefix, or an escape character, behind the backslash. */
  predicate Prefixed(q: string)
    requires |q| > 1
  {
    ((q[1] == 'C' || q[1] == 'M') && |q| > 2 && q[2] == '-') || q[1] == 'e'
  }

  predicate Backwards(q: string)
    requires |q| > 1
  {
    "C-\\M-" <= q[1..]
  }

  /** The characters a written sequence stands for.  None: a bare `\C-` ends it,
      and reading goes on past the end. */
  function Translate(q: string): Maybe<string>
    decreases |q|
  {
    if q == "" then Some("")
    else if q[0] != '\\' then Put(q[0], Translate(q[1..]))
    else if |q| == 1 then Some("")
    else if !Prefixed(q) then Put(q[1], Translate(q[2..]))
    else if Backwards(q) then
      if |q| == 6 then Some([Esc, 0 as char])
      else Put(Esc, Put(Ctrl(ToUpper(q[6])), Translate(q[7..])))
    else if q[1] == 'M' then Put(Esc, Translate(q[3..]))
    else if q[1] == 'e' then Put(Esc, Translate(q[2..]))
    else if |q| == 3 then None
    else Put(if q[3] == '?' then Rubout else Ctrl(ToUpper(q[3])), Translate(q[4..]))
  }

  function Cat(a: string, b: Maybe<string>): Maybe<string> {
    if b.None? then None else Some(a + b.value)
  }

  lemma CatPut(a: string, c: char, m: Maybe<string>)
    ensures Cat(a, Put(c, m)) == Cat(a + [c], m)
  {
    assert m.Some? ==> a + ([c] + m.value) == (a + [c]) + m.value;
  }

  lemma CatNothing(a: string, m: Maybe<string>)
    ensures Cat("", m) == m && Cat(a, Some("")) == Some(a)
  {
    assert m.Some? ==> "" + m.value == m.value;
    assert a + "" == a;
  }

  /** One round of reading, with a already read. */
  lemma ReadOne(a: string, q: string)
    requires q != ""
    ensures q[0] != '\\' ==> Cat(a, Translate(q)) == Cat(a + [q[0]], Translate(q[1..]))
    ensures q == "\\" ==> Cat(a, Translate(q)) == Some(a)
    ensures q[0] == '\\' && |q| > 1 ==>
      Cat(a, Translate(q)) ==
        if !Prefixed(q) then Cat(a + [q[1]], Translate(q[2..]))
        else if Backwards(q) then
          if |q| == 6 then Some(a + [Esc] + [0 as char])
          else Cat(a + [Esc] + [Ctrl(ToUpper(q[6]))], Translate(q[7..]))
        else if q[1] == 'M' then Cat(a + [Esc], Translate(q[3..]))
        else if q[1] == 'e' then Cat(a + [Esc], Translate(q[2..]))
        else if |q| == 3 then None
        else Cat(a + [if q[3] == '?' then Rubout else Ctrl(ToUpper(q[3]))], Translate(q[4..]))
  {
    CatNothing(a, None);
    forall c: char, m
      ensures Cat(a, Put(c, m)) == Cat(a + [c], m)
    {
      CatPut(a, c, m);
    }
    if |q| > 6 {
      CatPut(a + [Esc], Ctrl(ToUpper(q[6])), Translate(q[7..]));
    }
    assert a + [Esc, 0 as char] == a + [Esc] + [0 as char];
  }

  /** The part of the loop for \C-, \M- and \e; i is at the character behind the
      backslash and ends up at the last one used. */
  method ReadPrefixed(keyseq: string, i0: nat, buf: array<char>, l0: nat) returns (i: nat, l: nat, ok: bool)
    requires 0 < i0 < |keyseq| < buf.Length && l0 < i0 && keyseq[i0 - 1] == '\\' && Prefixed(keyseq[i0 - 1..])
    modifies buf
    ensures l0 <= l && buf[..l0] == old(buf[..l0])
    ensures ok ==> i0 <= i < |keyseq| && l <= i + 1
    ensures ok ==> Cat(buf[..l], Translate(keyseq[i + 1..])) == Cat(buf[..l0], Translate(keyseq[i0 - 1..]))
    ensures !ok ==> Translate(keyseq[i0 - 1..]) == None
  {
    hide Translate;
    ghost var before := buf[..l0];
    Rests(keyseq, i0 - 1);
    ReadOne(before, keyseq[i0 - 1..]);
    i, l, ok := i0, l0, true;
    if i + 5 <= |keyseq| && keyseq[i..i + 5] == "C-\\M-" {
      buf[l] := Esc;
      i := i + 5;
      buf[l + 1] := if i < |keyseq| then Ctrl(ToUpper(keyseq[i])) else 0 as char;
      l := l + 2;
      assert buf[..l] == before + [Esc] + [buf[l - 1]];
      if i == |keyseq| {
        assert keyseq[i..] == "";
        TranslateNothing(buf[..l]);
        i := i - 1;
      }
    } else {
      match keyseq[i] {
        case 'M' =>
          i := i + 1;
          buf[l] := Esc;
        case 'C' =>
          i := i + 2;
          if i == |keyseq| {
            ok := false;
            return;
          }
          buf[l] := if keyseq[i] == '?' then Rubout else Ctrl(ToUpper(keyseq[i]));
        case _ =>
          buf[l] := Esc;
      }
      l := l + 1;
      assert buf[..l] == before + [buf[l - 1]];
    }
  }

  /** `rl_translate_keyseq`, into the caller's buffer.  Not ok: the loop has gone
      past the end of keyseq. */
  method TranslateKeyseq(keyseq: string, buf: array<char>) returns (len: nat, ok: bool)
    requires buf.Length > |keyseq|
    modifies buf
    ensures ok == Translate(keyseq).Some? == (PlaceAfter(Between, keyseq) != Control)
    ensures ok ==> len <= |keyseq| && Translate(keyseq) == Some(buf[..len]) && buf[len] == 0 as char
  {
    hide Translate, PlaceAfter;
    RunsPastIff(keyseq);
    var i, l := 0, 0;
    assert keyseq[0..] == keyseq && buf[..0] == "";
    CatNothing("", Translate(keyseq));
    while i < |keyseq|
      invariant l <= i <= |keyseq|
      invariant Cat(buf[..l], Translate(keyseq[i..])) == Translate(keyseq)
    {
      ghost var before := buf[..l];
      Rests(keyseq, i);
      ReadOne(before, keyseq[i..]);
      var c := keyseq[i];
      if c == '\\' {
        i := i + 1;
        if i == |keyseq| {
          assert keyseq[i..] == "";
          TranslateNothing(before);
          break;
        }
        c := keyseq[i];
        if ((c == 'C' || c == 'M') && i + 1 < |keyseq| && keyseq[i + 1] == '-') || c == 'e' {
          i, l, ok := ReadPrefixed(keyseq, i, buf, l);
          if !ok {
            return l, false;
          }
          i := i + 1;
          continue;
        }
      }
      buf[l] := c;
      l := l + 1;
      assert buf[..l] == before + [c];
      i := i + 1;
    }
    assert keyseq[i..] == "";
    TranslateNothing(buf[..l]);
    len, ok := l, true;
    ghost var done := buf[..l];
    buf[l] := 0 as char;
    assert buf[..l] == done;
  }

  lemma TranslateNothing(a: string)
    ensures Translate("") == Some("") && Cat(a, Translate("")) == Some(a)
  {
    CatNothing(a, None);
  }

  lemma Rests(s: string, i: nat)
    requires i < |s|
    ensures var q := s[i..];
      && |q| == |s| - i && q[0] == s[i]
      && q[1..] == s[i + 1..]
      && (|q| > 1 ==> q[1] == s[i + 1] && q[2..] == s[i + 2..])
      && (|q| > 2 ==> q[2] == s[i + 2] && q[3..] == s[i + 3..])
      && (|q| > 3 ==> q[3] == s[i + 3] && q[4..] == s[i + 4..])
      && (|q| > 5 ==> q[1..6] == s[i + 1..i + 6] && q[1..][..5] == q[1..6])
      && (|q| > 6 ==> q[6] == s[i + 6] && q[7..] == s[i + 7..])
      && (|q| == 1 ==> q == [s[i]])
  {
  }

  // -------------------------------------------------- when reading runs past the end

  /** Where in a key's notation a text may end: between keys, behind a backslash, a
      `\C` or `\M` still without its dash, behind `\C-`, in a `\C-\M-` not yet
      complete, or behind it. */
  datatype Place = Between | Slash | LetterC | LetterM | Control | ControlSlash | ControlM | Both

  function Onward(place: Place, c: char): Place {
    match place
    case Slash => if c == 'C' then LetterC else if c == 'M' then LetterM else Between
    case LetterC => if c == '-' then Control else FromBetween(c)
    case LetterM => if c == '-' then Between else FromBetween(c)
    case Control => if c == '\\' then ControlSlash else Between
    case ControlSlash => if c == 'M' then ControlM else FromBetween(c)
    case ControlM => if c == '-' then Both else FromBetween(c)
    case Both => Between
    case Between => FromBetween(c)
  }

  function FromBetween(c: char): Place {
    if c == '\\' then Slash else Between
  }

  function PlaceAfter(place: Place, q: string): Place
    decreases |q|
  {
    if q == "" then place else PlaceAfter(Onward(place, q[0]), q[1..])
  }

  lemma PlaceSteps(place: Place, q: string)
    ensures q == "" ==> PlaceAfter(place, q) == place
    ensures |q| >= 1 ==> PlaceAfter(place, q) == PlaceAfter(Onward(place, q[0]), q[1..])
    ensures |q| >= 2 ==> PlaceAfter(place, q) == PlaceAfter(Onward(Onward(place, q[0]), q[1]), q[2..])
    ensures |q| >= 3 ==> PlaceAfter(place, q) == PlaceAfter(Onward(Onward(Onward(place, q[0]), q[1]), q[2]), q[3..])
  {
    if |q| >= 2 {
      assert q[1..][1..] == q[2..];
      if |q| >= 3 {
        assert q[2..][1..] == q[3..];
      }
    }
  }

  /** Between keys, the same is said of any place that treats the next character so. */
  lemma PlaceFrom(place: Place, q: string)
    requires place.LetterC? || place.LetterM? || place.ControlSlash? || place.ControlM?
    requires q != "" ==> Onward(place, q[0]) == Onward(Between, q[0])
    ensures PlaceAfter(place, q).Control? == PlaceAfter(Between, q).Control?
  {
  }

  /** Reading runs past the end of a text exactly when it ends behind a `\C-` that
      waits for its character. */
  lemma {:induction false} RunsPastIff(q: string)
    ensures Translate(q) == None <==> PlaceAfter(Between, q) == Control
    decreases |q|
  {
    hide Translate, PlaceAfter;
    TranslateAt(q);
    PlaceSteps(Between, q);
    if q == "" || |q| == 1 {
      PlaceSteps(Between, "");
      PlaceSteps(Slash, "");
      assert q != "" ==> q[1..] == "";
      if q != "" && q[0] != '\\' {
        RunsPastIff(q[1..]);
      }
    } else if q[0] != '\\' {
      RunsPastIff(q[1..]);
    } else if !Prefixed(q) {
      RunsPastIff(q[2..]);
      if q[1] == 'C' || q[1] == 'M' {
        assert q[2..] != "" ==> q[2..][0] == q[2];
        PlaceFrom(if q[1] == 'C' then LetterC else LetterM, q[2..]);
      }
    } else if q[1] == 'e' {
      RunsPastIff(q[2..]);
    } else if q[1] == 'M' {
      RunsPastIff(q[3..]);
      BackwardsAt(q);
    } else {
      ControlRunsPast(q);
    }
  }

  /** The shortest such text. */
  lemma BareControl()
    ensures Translate("\\C-") == None
  {
    assert "\\C-"[1..] == "C-";
  }

  lemma TranslateAt(q: string)
    ensures q == "" ==> Translate(q) == Some("")
    ensures |q| == 1 && q[0] == '\\' ==> Translate(q) == Some("")
    ensures q != "" && q[0] != '\\' ==> Translate(q) == Put(q[0], Translate(q[1..]))
    ensures |q| > 1 && q[0] == '\\' ==>
      Translate(q) ==
        if !Prefixed(q) then Put(q[1], Translate(q[2..]))
        else if Backwards(q) then
          if |q| == 6 then Some([Esc, 0 as char])
          else Put(Esc, Put(Ctrl(ToUpper(q[6])), Translate(q[7..])))
        else if q[1] == 'M' then Put(Esc, Translate(q[3..]))
        else if q[1] == 'e' then Put(Esc, Translate(q[2..]))
        else if |q| == 3 then None
        else Put(if q[3] == '?' then Rubout else Ctrl(ToUpper(q[3])), Translate(q[4..]))
  {
  }

  /** The case of a `\C-`. */
  lemma {:induction false} ControlRunsPast(q: string)
    requires |q| > 2 && q[0] == '\\' && q[1] == 'C' && q[2] == '-'
    ensures Translate(q) == None <==> PlaceAfter(Between, q) == Control
    decreases |q|, 0
  {
    hide Translate, PlaceAfter;
    TranslateAt(q);
    PlaceSteps(Between, q);
    var r := q[3..];
    PlaceSteps(Control, r);
    PlaceSteps(Control, "");
    if |q| == 3 {
      assert |q[1..]| < 5;
    } else {
      assert r[0] == q[3] && r[1..] == q[4..];
      BackwardsAt(q);
      if q[3] != '\\' {
        RunsPastIff(q[4..]);
      } else if !Backwards(q) {
        RunsPastIff(q[4..]);
        EscapedControl(q[4..]);
      } else {
        assert r[1] == q[4] && r[2] == q[5] && r[3..] == q[6..];
        PlaceSteps(Both, "");
        assert |q| == 6 ==> q[6..] == "";
        if |q| > 6 {
          PlaceSteps(Both, q[6..]);
          assert q[6..][0] == q[6] && q[6..][1..] == q[7..];
          RunsPastIff(q[7..]);
        }
      }
    }
  }

  lemma BackwardsAt(q: string)
    requires |q| > 1
    ensures q[1] != 'C' ==> !Backwards(q)
    ensures |q| > 3 && q[1] == 'C' && q[2] == '-' ==>
      (Backwards(q) <==> |q| > 5 && q[3] == '\\' && q[4] == 'M' && q[5] == '-')
  {
    assert q[1..][0] == q[1];
    assert |q| > 5 ==> q[1..6] == [q[1], q[2], q[3], q[4], q[5]] && q[1..][..5] == q[1..6];
  }

  /** Behind `\C-\` without an `M-`. */
  lemma EscapedControl(u: string)
    requires !(|u| > 1 && u[0] == 'M' && u[1] == '-')
    ensures PlaceAfter(ControlSlash, u).Control? == PlaceAfter(Between, u).Control?
  {
    hide PlaceAfter;
    PlaceSteps(ControlSlash, "");
    PlaceSteps(Between, "");
    PlaceSteps(ControlSlash, u);
    PlaceSteps(Between, u);
    if u != "" && u[0] == 'M' {
      assert u[1..] != "" ==> u[1..][0] == u[1];
      PlaceFrom(ControlM, u[1..]);
    }
  }

  predicate Bytes(s: string) {
    forall i | 0 <= i < |s| :: (s[i] as int) < 256
  }

  /** Bytes are read as bytes. */
  lemma {:induction false} TranslateBytes(q: string)
    requires Bytes(q)
    ensures Translate(q).Some? ==> Bytes(Translate(q).value) && |Translate(q).value| <= |q|
    decreases |q|
  {
    hide Translate;
    TranslateAt(q);
    if q != "" {
      RestBytes(q);
      TranslateBytes(q[1..]);
      if |q| > 1 {
        TranslateBytes(q[2..]);
        if |q| > 2 {
          TranslateBytes(q[3..]);
          if |q| > 3 {
            TranslateBytes(q[4..]);
            if |q| > 6 {
              TranslateBytes(q[7..]);
            }
          }
        }
      }
    }
  }

  lemma RestBytes(q: string)
    requires Bytes(q)
    ensures forall k | 0 <= k <= |q| :: Bytes(q[k..])
  {
  }

  // ------------------------------------------------------------------ writing

  function UnCtrl(c: char): char
    requires c as int < 32
  {
    ToUpper((c as int + 64) as char)
  }

  /** A byte with its high bit set is a meta character, unless it is negative. */
  predicate Meta(signed: bool, c: char) {
    !signed && (c as int) >= 128
  }

  function UnMeta(c: char): char {
    (c as int % 128) as char
  }

  function Prefix(signed: bool, c: char): string {
    if Meta(signed, c) then "\\M-"
    else if ((c as int) < 32 && c != Esc) || c == Rubout then "\\C-"
    else ""
  }

  function Base(signed: bool, c: char): char {
    if Meta(signed, c) then UnMeta(c)
    else if (c as int) < 32 && c != Esc then ToLower(UnCtrl(c))
    else if c == Rubout then '?'
    else c
  }

  function Escaped(d: char): (r: string)
    ensures 0 < |r| <= 2
  {
    if d == Esc then "\\e" else if d == '\\' || d == '"' then ['\\', d] else [d]
  }

  /** How one character is written. */
  function Written(signed: bool, c: char): string {
    Prefix(signed, c) + Escaped(Base(signed, c))
  }

  function Untranslate(signed: bool, s: string): string {
    if s == "" then "" else Written(signed, s[0]) + Untranslate(signed, s[1..])
  }

  lemma UntranslateAt(signed: bool, s: string)
    ensures Untranslate(signed, s) == if s == "" then "" else Written(signed, s[0]) + Untranslate(signed, s[1..])
  {
  }

  lemma {:induction false} UntranslateSnoc(signed: bool, s: string, c: char)
    ensures Untranslate(signed, s + [c]) == Untranslate(signed, s) + Written(signed, c)
    decreases |s|
  {
    if s == "" {
      assert s + [c] == [c] && [c][1..] == "";
      assert Untranslate(signed, [c]) == Written(signed, c) + "" == "" + Written(signed, c);
    } else {
      assert (s + [c])[1..] == s[1..] + [c];
      UntranslateSnoc(signed, s[1..], c);
      assert Written(signed, s[0]) + (Untranslate(signed, s[1..]) + Written(signed, c))
        == (Written(signed, s[0]) + Untranslate(signed, s[1..])) + Written(signed, c);
    }
  }

  /** `_rl_untranslate_macro_value`: seven places for each character suffice. */
  method UntranslateMacroValue(signed: bool, seq0: string) returns (ret: string)
    requires Keys(seq0)
    ensures ret == Untranslate(signed, seq0) && |ret| <= 7 * |seq0|
  {
    hide Untranslate, Written;
    var buf := new char[7 * |seq0| + 1];
    var r, s := 0, 0;
    UntranslateAt(signed, "");
    while s < |seq0|
      invariant s <= |seq0| && r <= 7 * s
      invariant buf[..r] == Untranslate(signed, seq0[..s])
    {
      UntranslateSnoc(signed, seq0[..s], seq0[s]);
      assert seq0[..s + 1] == seq0[..s] + [seq0[s]];
      r := WriteOne(signed, seq0[s], buf, r);
      s := s + 1;
    }
    buf[r] := 0 as char;
    assert seq0[..s] == seq0;
    ret := buf[..r];
  }

  method WritePrefix(signed: bool, c0: char, buf: array<char>, r0: nat) returns (r: nat, c: char)
    requires r0 + 7 < buf.Length && (c0 as int) < 256
    modifies buf
    ensures c == Base(signed, c0) && r == r0 + |Prefix(signed, c0)|
    ensures buf[..r] == old(buf[..r0]) + Prefix(signed, c0)
  {
    c, r := c0, r0;
    if Meta(signed, c) {
      buf[r], buf[r + 1], buf[r + 2] := '\\', 'M', '-';
      r := r + 3;
      c := UnMeta(c);
    } else if (c as int) < 32 && c != Esc {
      buf[r], buf[r + 1], buf[r + 2] := '\\', 'C', '-';
      r := r + 3;
      c := ToLower(UnCtrl(c));
    } else if c == Rubout {
      buf[r], buf[r + 1], buf[r + 2] := '\\', 'C', '-';
      r := r + 3;
      c := '?';
    }
  }

  method WriteOne(signed: bool, c0: char, buf: array<char>, r0: nat) returns (r: nat)
    requires r0 + 7 < buf.Length && (c0 as int) < 256
    modifies buf
    ensures r0 <= r <= r0 + 7 && buf[..r] == old(buf[..r0]) + Written(signed, c0)
  {
    hide Base, Prefix, Escaped;
    PrefixIsShort(signed, c0);
    var c;
    r, c := WritePrefix(signed, c0, buf, r0);
    r := WriteEscaped(c, buf, r);
  }

  method WriteEscaped(c0: char, buf: array<char>, r0: nat) returns (r: nat)
    requires r0 + 2 <= buf.Length
    modifies buf
    ensures r == r0 + |Escaped(c0)| && buf[..r] == old(buf[..r0]) + Escaped(c0)
  {
    var c := c0;
    r := r0;
    if c == Esc {
      buf[r] := '\\';
      r := r + 1;
      c := 'e';
    } else if c == '\\' || c == '"' {
      buf[r] := '\\';
      r := r + 1;
    }
    buf[r] := c;
    r := r + 1;
  }

  lemma PrefixIsShort(signed: bool, c: char)
    ensures |Prefix(signed, c)| <= 3
  {
  }

  // --------------------------------------------------------------- round trip

  predicate Plain(signed: bool, c: char) {
    (' ' <= c < Rubout && c != '\\' && c != '"') || (signed && (c as int) >= 128)
  }

  /** Whether s is read back from what is written for it, given that a backslash
      may stand in front of it: Control-backslash is written with one backslash too
      many, which is harmless at the end and before characters that a backslash
      leaves as they are; a backslash passes it on. */
  predicate ReadsBack(signed: bool, s: string, stray: bool)
    decreases |s|
  {
    s == "" ||
    if Meta(signed, s[0]) then false
    else if !stray then ReadsBack(signed, s[1..], s[0] == ControlBackslash)
    else if s[0] == '\\' then ReadsBack(signed, s[1..], true)
    else
      && Plain(signed, s[0]) && s[0] != 'e'
      && ((s[0] == 'C' || s[0] == 'M') && |s| > 1 ==> s[1] != '-')
      && ReadsBack(signed, s[1..], false)
  }

  lemma WrittenCases(signed: bool, c: char)
    requires 0 < c as int < 256
    ensures Plain(signed, c) ==> Written(signed, c) == [c]
    ensures c == '\\' || c == '"' ==> Written(signed, c) == ['\\', c]
    ensures c == Esc ==> Written(signed, c) == "\\e"
    ensures c == Rubout ==> Written(signed, c) == "\\C-?"
    ensures c == ControlBackslash ==> Written(signed, c) == "\\C-\\\\"
    ensures (c as int) < 32 && c != Esc && c != ControlBackslash ==>
      exists x: char :: Written(signed, c) == ['\\', 'C', '-', x] && x != '\\' && x != '?' && Ctrl(ToUpper(x)) == c
    ensures Meta(signed, c) ==> "\\M-" <= Written(signed, c)
    ensures !Plain(signed, c) ==> Written(signed, c)[0] == '\\'
  {
    if (c as int) < 32 && c != Esc && c != ControlBackslash {
      var x := ToLower(UnCtrl(c));
      assert Written(signed, c) == ['\\', 'C', '-', x];
    }
  }

  lemma WrittenStart(signed: bool, c: char)
    requires 0 < c as int < 256
    ensures Plain(signed, c) ==> Written(signed, c) == [c]
    ensures !Plain(signed, c) ==> Written(signed, c) != "" && Written(signed, c)[0] == '\\'
    ensures c == '\\' ==> Written(signed, c)[1..] == "\\"
  {
    WrittenCases(signed, c);
  }

  lemma TranslatePlain(c: char, u: string)
    requires c != '\\'
    ensures Translate([c] + u) == Put(c, Translate(u))
  {
    assert ([c] + u)[1..] == u;
  }

  lemma TranslateEscaped(c: char, u: string)
    requires c == '\\' || c == '"' || c == 'e'
    ensures Translate(['\\', c] + u) == Put(if c == 'e' then Esc else c, Translate(u))
  {
    var q := ['\\', c] + u;
    assert q[2..] == u && q[1] == c;
    assert q[1..][0] == c;
  }

  lemma TranslateControl(x: char, u: string)
    requires x == '\\' ==> u != "" && u[0] == '\\'
    ensures Translate(['\\', 'C', '-', x] + u) == Put(if x == '?' then Rubout else Ctrl(ToUpper(x)), Translate(u))
  {
    var q := ['\\', 'C', '-', x] + u;
    assert q[4..] == u && q[1] == 'C' && q[2] == '-' && q[3] == x;
    assert q[1..][2] == x && (u != "" ==> q[1..][3] == u[0]);
  }

  /** A meta character is read back as an escape and something else. */
  lemma MetaMisread(signed: bool, c: char, u: string)
    requires Meta(signed, c) && (c as int) < 256
    ensures var m := Translate(Written(signed, c) + u); m == None || (m.value != "" && m.value[0] != c)
  {
    hide Translate, Written;
    WrittenCases(signed, c);
    var q := Written(signed, c) + u;
    assert q[0] == '\\' && q[1] == 'M' && q[2] == '-';
    BackwardsAt(q);
    TranslateAt(q);
  }

  /** A character with nothing in front is read back, and what follows is read as
      it stands, but for the stray backslash. */
  lemma WrittenReadsBack(signed: bool, c: char, u: string)
    requires 0 < c as int < 256
    requires !Meta(signed, c)
    ensures Translate(Written(signed, c) + u) == Put(c, Translate(if c == ControlBackslash then "\\" + u else u))
  {
    hide Translate, Written;
    WrittenCases(signed, c);
    if Plain(signed, c) {
      TranslatePlain(c, u);
    } else if c == '\\' || c == '"' {
      TranslateEscaped(c, u);
    } else if c == Esc {
      TranslateEscaped('e', u);
    } else if c == Rubout {
      TranslateControl('?', u);
    } else if c == ControlBackslash {
      assert "\\C-\\\\" + u == ['\\', 'C', '-', '\\'] + ("\\" + u);
      TranslateControl('\\', "\\" + u);
    } else {
      var x: char :| Written(signed, c) == ['\\', 'C', '-', x] && x != '\\' && x != '?' && Ctrl(ToUpper(x)) == c;
      TranslateControl(x, u);
    }
  }

  lemma StrayForms(c: char, u: string)
    ensures Translate(['\\', '\\'] + u) == Put('\\', Translate(u))
    ensures var q := ['\\', c] + u;
      !Prefixed(q) ==> Translate(q) == Put(c, Translate(u))
    ensures var q := ['\\', c] + u;
      Prefixed(q) ==> Translate(q) == None || (Translate(q).value != "" && Translate(q).value[0] != c)
  {
    var q := ['\\', c] + u;
    assert q[2..] == u;
    assert (['\\', '\\'] + u)[2..] == u;
  }

  lemma UntranslateStart(signed: bool, s: string)
    requires Keys(s)
    ensures s == "" <==> Untranslate(signed, s) == ""
    ensures s != "" ==> (Untranslate(signed, s)[0] == '-' <==> s[0] == '-')
  {
    if s != "" {
      WrittenCases(signed, s[0]);
      assert Written(signed, s[0]) != "" && Untranslate(signed, s)[0] == Written(signed, s[0])[0];
    }
  }

  lemma StrayPlain(signed: bool, c: char, u: string)
    requires Plain(signed, c)
    ensures var m := Translate("\\" + ([c] + u));
      if c != 'e' && !((c == 'C' || c == 'M') && u != "" && u[0] == '-') then m == Put(c, Translate(u))
      else m == None || (m.value != "" && m.value[0] != c)
  {
    hide Translate;
    var q := ['\\', c] + u;
    assert "\\" + ([c] + u) == q;
    StrayForms(c, u);
    assert u != "" ==> q[2] == u[0];
  }

  lemma StraySpecial(c: char, w: string, u: string)
    requires w != "" && w[0] == '\\'
    ensures Translate("\\" + (w + u)) == Put('\\', Translate(w[1..] + u))
  {
    hide Translate;
    assert "\\" + (w + u) == ['\\', '\\'] + (w[1..] + u);
    StrayForms(c, w[1..] + u);
  }

  /** A character behind a stray backslash. */
  lemma StrayReadsBack(signed: bool, s: string)
    requires Keys(s) && s != ""
    ensures var c, u, m := s[0], Untranslate(signed, s[1..]), Translate("\\" + Untranslate(signed, s));
      if c == '\\' then m == Put(c, Translate("\\" + u))
      else if Plain(signed, c) && c != 'e' && !((c == 'C' || c == 'M') && |s| > 1 && s[1] == '-')
        then m == Put(c, Translate(u))
      else m == None || (m.value != "" && m.value[0] != c)
  {
    hide Translate, Written, Untranslate;
    var c, u := s[0], Untranslate(signed, s[1..]);
    WrittenStart(signed, c);
    UntranslateAt(signed, s);
    UntranslateStart(signed, s[1..]);
    assert |s| > 1 ==> s[1..][0] == s[1];
    if Plain(signed, c) {
      StrayPlain(signed, c, u);
    } else {
      StraySpecial(c, Written(signed, c), u);
    }
  }

  lemma PutEquals(c: char, m: Maybe<string>, s: string)
    requires s != "" && s[0] == c
    ensures Put(c, m) == Some(s) <==> m == Some(s[1..])
  {
    assert s == [c] + s[1..];
    if m.Some? && [c] + m.value == s {
      assert m.value == ([c] + m.value)[1..];
    }
  }

  lemma {:induction false} ReadsBackIff(signed: bool, s: string, stray: bool)
    requires Keys(s)
    ensures Translate((if stray then "\\" else "") + Untranslate(signed, s)) == Some(s) <==> ReadsBack(signed, s, stray)
    decreases |s|
  {
    hide Translate, Written;
    if s == "" {
      UntranslateAt(signed, "");
      TranslateNothing("");
      TranslateAt("\\");
      assert "\\" + "" == "\\";
    } else {
      ReadsBackIff(signed, s[1..], false);
      ReadsBackIff(signed, s[1..], true);
      var u := Untranslate(signed, s[1..]);
      assert "" + u == u && "" + Untranslate(signed, s) == Untranslate(signed, s);
      forall m
        ensures Put(s[0], m) == Some(s) <==> m == Some(s[1..])
      {
        PutEquals(s[0], m, s);
      }
      if stray {
        StrayReadsBack(signed, s);
      } else if Meta(signed, s[0]) {
        MetaMisread(signed, s[0], u);
      } else {
        WrittenReadsBack(signed, s[0], u);
      }
    }
  }

  /** What is written reads back exactly when there are no meta characters, which only
      come where a plain `char` is unsigned, and no Control-backslash leaves its stray
      backslash before a character that minds it. */
  lemma RoundTripIff(signed: bool, s: string)
    requires Keys(s)
    ensures Translate(Untranslate(signed, s)) == Some(s) <==> ReadsBack(signed, s, false)
  {
    ReadsBackIff(signed, s, false);
    assert "" + Untranslate(signed, s) == Untranslate(signed, s);
  }

  lemma {:induction false} WithoutControlBackslash(signed: bool, s: string)
    requires ControlBackslash !in s && forall i | 0 <= i < |s| :: !Meta(signed, s[i])
    ensures ReadsBack(signed, s, false)
    decreases |s|
  {
    if s != "" {
      WithoutControlBackslash(signed, s[1..]);
    }
  }

  /** Without Control-backslash every sequence reads back, if it has no meta characters
      either. */
  lemma RoundTrip(signed: bool, s: string)
    requires Keys(s) && ControlBackslash !in s && forall i | 0 <= i < |s| :: !Meta(signed, s[i])
    ensures Translate(Untranslate(signed, s)) == Some(s)
  {
    WithoutControlBackslash(signed, s);
    RoundTripIff(signed, s);
  }

  /** Control-backslash and an e are written as \C-\\e, which reads as Control-backslash
      and an escape. */
  lemma ControlBackslashIsMisread(signed: bool)
    ensures Translate(Untranslate(signed, [ControlBackslash, 'e'])) != Some([ControlBackslash, 'e'])
  {
    var s := [ControlBackslash, 'e'];
    assert s[1..] == "e";
    RoundTripIff(signed, s);
  }

  /** Where a plain `char` is unsigned, the key 225 is written as \M-a, which reads as
      an escape and an a. */
  lemma MetaIsMisread()
    ensures Translate(Untranslate(false, [225 as char])) != Some([225 as char])
  {
    var s := [225 as char];
    assert s[1..] == "";
    RoundTripIff(false, s);
  }

  // ----------------------------------------------------------- other ways to write a key

  /** An escape can be written as \e or as control and a bracket; a meta prefix is an
      escape; control does not mind the case of a letter. */
  lemma EscapeForms(u: string)
    ensures Translate("\\e" + u) == Put(27 as char, Translate(u))
    ensures Translate("\\C-[" + u) == Translate("\\e" + u)
    ensures Translate("\\M-" + u) == Translate("\\e" + u)
  {
    hide Translate;
    var e, m := "\\e" + u, "\\M-" + u;
    TranslateAt(e);
    TranslateAt(m);
    assert e[2..] == u && m[3..] == u;
    assert m[1..][0] == 'M';
    assert e[1..][0] == 'e';
    TranslateControl('[', u);
  }

  /** A backslash at the end is dropped; with nothing behind both prefixes control applies
      to the NUL. */
  lemma UnfinishedForms()
    ensures Translate("\\") == Some("") && Translate("\\M-") == Some([27 as char])
    ensures Translate("\\C-\\M-") == Some([27 as char, 0 as char])
  {
    hide Translate;
    TranslateAt("\\");
    TranslateAt("\\C-\\M-");
    assert "\\C-\\M-"[1..][..5] == "C-\\M-";
    EscapeForms("");
    assert "\\M-" + "" == "\\M-" && "\\e" + "" == "\\e";
    TranslateAt("");
    assert [27 as char] + "" == [27 as char];
  }

  /** A backslash that begins no prefix is dropped. */
  lemma EscapedCharacter(c: char, u: string)
    requires c != 'e' && ((c == 'C' || c == 'M') && u != "" ==> u[0] != '-')
    ensures Translate(['\\', c] + u) == Put(c, Translate(u))
  {
    hide Translate;
    var q := ['\\', c] + u;
    TranslateAt(q);
    assert q[2..] == u && q[1] == c;
    assert |q| > 2 ==> q[2] == u[0];
  }

  /** A key with both prefixes: the order in which they are written does not matter. */
  lemma BothPrefixes(x: char, u: string)
    requires x != '?' && x != '\\'
    ensures Translate("\\C-\\M-" + [x] + u) == Translate("\\M-\\C-" + [x] + u)
  {
    hide Translate;
    var q := "\\C-\\M-" + [x] + u;
    TranslateAt(q);
    assert q[1..][..5] == "C-\\M-";
    assert q[6] == x && q[7..] == u;
    var w := "\\C-" + [x] + u;
    assert "\\M-\\C-" + [x] + u == "\\M-" + w;
    EscapeForms(w);
    EscapeForms(u);
    assert w == ['\\', 'C', '-', x] + u;
    TranslateControl(x, u);
    assert q[1] == 'C' && q[2] == '-';
  }

  /** Control takes the letter's place in the alphabet, whatever its case. */
  lemma ControlLetters(n: nat, u: string)
    requires 1 <= n <= 26
    ensures Translate("\\C-" + [('a' as int + n - 1) as char] + u) == Put(n as char, Translate(u))
    ensures Translate("\\C-" + [('A' as int + n - 1) as char] + u) == Put(n as char, Translate(u))
    ensures Translate("\\C-?" + u) == Put(127 as char, Translate(u))
  {
    hide Translate;
    var a, b := ('a' as int + n - 1) as char, ('A' as int + n - 1) as char;
    TranslateControl(a, u);
    TranslateControl(b, u);
    TranslateControl('?', u);
    assert "\\C-" + [a] + u == ['\\', 'C', '-', a] + u && "\\C-" + [b] + u == ['\\', 'C', '-', b] + u;
    assert ToUpper(a) == b && Ctrl(b) as int == n;
  }

  /** Control of the other characters: what is left of the five low bits. */
  lemma ControlOfOthers(x: char, u: string)
    requires ' ' <= x < '`' && x != '?' && x != '\\'
    ensures Translate("\\C-" + [x] + u)
         == Put((if x < '@' then x as int - 32 else x as int - 64) as char, Translate(u))
  {
    hide Translate;
    TranslateControl(x, u);
    assert "\\C-" + [x] + u == ['\\', 'C', '-', x] + u;
  }

  /** A meta character is read back as an escape and the character without its high bit. */
  lemma MetaReadsAs(c: char, u: string)
    requires 128 < c as int < 256
    ensures Translate(Written(false, c) + u)
         == Put(27 as char, Put((c as int - 128) as char, Translate(u)))
  {
    hide Translate;
    var d := (c as int - 128) as char;
    assert Written(false, c) == "\\M-" + Escaped(d);
    assert Written(false, c) + u == "\\M-" + (Escaped(d) + u);
    EscapeForms(Escaped(d) + u);
    if d == Esc {
      assert Escaped(d) + u == "\\e" + u;
      EscapeForms(u);
    } else if d == '\\' || d == '"' {
      TranslateEscaped(d, u);
    } else {
      TranslatePlain(d, u);
    }
  }
}
