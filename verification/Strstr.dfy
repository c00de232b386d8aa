/** Finding a needle in a haystack: libs/kpathsea/strstr.c.  The jumps of the
    C code are steps between the places of its loop. */
module Strstr {

  datatype Maybe<T> = None | Some(value: T)

  const Nul: char := 0 as char

  /** C strings: no NUL inside, one behind. */
  predicate CString(s: string) {
    Nul !in s
  }

  function At(s: string, i: nat): char
    requires i <= |s|
  {
    if i == |s| then Nul else s[i]
  }

  predicate Occurs(hay: string, needle: string, i: nat) {
    i + |needle| <= |hay| && hay[i..i + |needle|] == needle
  }

  predicate NoneBefore(hay: string, needle: string, k: nat) {
    forall i | 0 <= i < k :: !Occurs(hay, needle, i)
  }

  ghost predicate FirstOccurrence(hay: string, needle: string, r: Maybe<nat>) {
    match r
    case Some(i) => Occurs(hay, needle, i) && NoneBefore(hay, needle, i)
    case None => forall i: nat :: !Occurs(hay, needle, i)
  }

  lemma WrongStart(hay: string, needle: string, i: nat)
    requires i <= |hay| && needle != "" && CString(needle) && At(hay, i) != needle[0]
    ensures !Occurs(hay, needle, i)
  {
    if i + |needle| <= |hay| {
      assert hay[i..i + |needle|][0] == hay[i];
    }
  }

  lemma WrongSecond(hay: string, needle: string, i: nat)
    requires i < |hay| && |needle| > 1 && CString(needle) && At(hay, i + 1) != needle[1]
    ensures !Occurs(hay, needle, i)
  {
    if i + |needle| <= |hay| {
      assert hay[i..i + |needle|][1] == hay[i + 1];
    }
  }

  /** Too little is left from i on. */
  lemma TooShort(hay: string, needle: string, i: nat)
    requires needle != "" && |hay| < i + |needle| && NoneBefore(hay, needle, i)
    ensures FirstOccurrence(hay, needle, None)
  {
  }

  lemma OccursByTail(hay: string, needle: string, i: nat)
    requires i + 1 < |hay| && |needle| > 1 && hay[i] == needle[0] && hay[i + 1] == needle[1]
    ensures Occurs(hay, needle, i) <==> needle[2..] <= hay[i + 2..]
  {
    var t := needle[2..];
    assert needle == [needle[0], needle[1]] + t;
    if i + |needle| <= |hay| {
      assert hay[i..i + |needle|] == [hay[i], hay[i + 1]] + hay[i + 2..i + |needle|];
      assert hay[i + 2..][..|t|] == hay[i + 2..i + |needle|];
      assert ([hay[i], hay[i + 1]] + hay[i + 2..i + |needle|])[2..] == hay[i + 2..i + |needle|];
    }
  }

  /** Comparing the rest of the needle, two characters a round; true when the needle
      ends first. */
  method RestMatches(hay: string, needle: string, rhaystack0: nat, rneedle: nat) returns (found: bool)
    requires CString(hay) && CString(needle) && rhaystack0 <= |hay| && rneedle <= |needle|
    ensures found <==> needle[rneedle..] <= hay[rhaystack0..]
  {
    var rhaystack, n := rhaystack0, rneedle;
    var a := At(needle, n);
    if At(hay, rhaystack) == a {
      while true
        invariant rneedle <= n <= |needle| && rhaystack0 <= rhaystack <= |hay|
        invariant a == At(needle, n) == At(hay, rhaystack)
        invariant n - rneedle == rhaystack - rhaystack0
        invariant Agree(hay, needle, rhaystack0, rneedle, n - rneedle)
        decreases |needle| - n
      {
        if a == Nul {
          Ended(hay, needle, rhaystack0, rneedle, rhaystack, n);
          return true;
        }
        rhaystack := rhaystack + 1;
        n := n + 1;
        a := At(needle, n);
        if At(hay, rhaystack) != a {
          break;
        }
        if a == Nul {
          Ended(hay, needle, rhaystack0, rneedle, rhaystack, n);
          return true;
        }
        rhaystack := rhaystack + 1;
        n := n + 1;
        a := At(needle, n);
        if At(hay, rhaystack) != a {
          break;
        }
      }
    }
    found := a == Nul;
    Ended(hay, needle, rhaystack0, rneedle, rhaystack, n);
  }

  predicate Agree(hay: string, needle: string, h: nat, n: nat, k: nat)
    requires h + k <= |hay| && n + k <= |needle|
  {
    forall i | n <= i < n + k :: needle[i] == hay[h - n + i]
  }

  lemma Ended(hay: string, needle: string, h0: nat, n0: nat, h: nat, n: nat)
    requires CString(hay) && CString(needle) && h0 <= h <= |hay| && n0 <= n <= |needle| && n - n0 == h - h0
    requires Agree(hay, needle, h0, n0, n - n0)
    requires At(needle, n) == Nul || At(hay, h) != At(needle, n)
    ensures At(needle, n) == Nul <==> needle[n0..] <= hay[h0..]
  {
    if n == |needle| {
      assert hay[h0..][..n - n0] == needle[n0..];
    } else if h < |hay| {
      assert hay[h0..][h - h0] == hay[h] && needle[n0..][n - n0] == needle[n];
    }
  }

  /** Where the loop of the C code is: before its unrolled scan, at the test
      behind the scan, or at the second character. */
  datatype Place = Scan | Shloop | Jin

  /** `strstr`: the first occurrence, or none exactly when there is none.  Every
      read of a text is at or before its NUL. */
  method Strstr(phaystack: string, pneedle: string) returns (r: Maybe<nat>)
    requires CString(phaystack) && CString(pneedle)
    ensures FirstOccurrence(phaystack, pneedle, r)
  {
    if pneedle == "" {
      return Some(0);
    }
    var b := pneedle[0];
    var haystack: int := -1;
    while true
      invariant -1 <= haystack < |phaystack| && NoneBefore(phaystack, pneedle, haystack + 1)
      decreases |phaystack| - haystack
    {
      haystack := haystack + 1;
      var c := At(phaystack, haystack);
      if c == Nul {
        TooShort(phaystack, pneedle, haystack);
        return None;
      }
      if c == b {
        break;
      }
      WrongStart(phaystack, pneedle, haystack);
    }
    if |pneedle| == 1 {
      assert phaystack[haystack..haystack + 1] == [b] == pneedle;
      return Some(haystack);
    }
    r := Search(phaystack, pneedle, haystack);
  }

  method Search(hay: string, needle: string, start: nat) returns (r: Maybe<nat>)
    requires CString(hay) && CString(needle) && |needle| > 1
    requires start < |hay| && hay[start] == needle[0] && NoneBefore(hay, needle, start)
    ensures FirstOccurrence(hay, needle, r)
  {
    var b, c := needle[0], needle[1];
    var h, place := start, Jin;
    while true
      invariant h < |hay|
      invariant NoneBefore(hay, needle, if place == Scan then h + 1 else h)
      invariant place == Jin ==> hay[h] == b
      decreases |hay| - h, match place case Shloop => 2 case Jin => 1 case Scan => 0
    {
      match place {
        case Scan =>
          h := h + 1;
          if At(hay, h) == Nul {
            TooShort(hay, needle, h);
            return None;
          }
          if hay[h] == b {
            place := Jin;
          } else {
            WrongStart(hay, needle, h);
            h := h + 1;
            if At(hay, h) == Nul {
              TooShort(hay, needle, h);
              return None;
            }
            place := Shloop;
          }
        case Shloop =>
          if hay[h] != b {
            WrongStart(hay, needle, h);
            place := Scan;
          } else {
            place := Jin;
          }
        case Jin =>
          h := h + 1;
          if At(hay, h) == Nul {
            TooShort(hay, needle, h - 1);
            return None;
          }
          if hay[h] != c {
            WrongSecond(hay, needle, h - 1);
            place := Shloop;
          } else {
            var found := RestMatches(hay, needle, h + 1, 2);
            h := h - 1;
            OccursByTail(hay, needle, h);
            if found {
              return Some(h);
            }
            place := Scan;
          }
      }
    }
  }
}
