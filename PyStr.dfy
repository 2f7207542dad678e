/**
 * The few Python `str` operations the quote code relies on, with the
 * semantics they have on ASCII text:
 * `s.strip(c)`, `s.replace(a, b)` for single characters, `s.lower()`,
 * `s.capitalize()`, `s.split(" ")` and `" ".join(words)`.
 */
module PyStr {

  /** Applies `f` to every character of `s`. */
  function MapChars(s: string, f: char -> char): (r: string)
    ensures |r| == |s|
    ensures forall i :: 0 <= i < |s| ==> r[i] == f(s[i])
  {
    seq(|s|, i requires 0 <= i < |s| => f(s[i]))
  }

  /** `f` sends the space character, and only it, to a space. */
  ghost predicate KeepsSpaces(f: char -> char)
  {
    forall c :: f(c) == ' ' <==> c == ' '
  }

  /** `s.replace(a, b)` for one-character `a` and `b`. */
  function ReplaceAll(s: string, a: char, b: char): (r: string)
    ensures |r| == |s|
    ensures forall i :: 0 <= i < |s| ==> r[i] == (if s[i] == a then b else s[i])
  {
    MapChars(s, c => if c == a then b else c)
  }

  /** ASCII `c.lower()`. */
  function LowerChar(c: char): char
  {
    if 'A' <= c <= 'Z' then (c as int + 32) as char else c
  }

  /** ASCII `c.upper()`. */
  function UpperChar(c: char): char
  {
    if 'a' <= c <= 'z' then (c as int - 32) as char else c
  }

  /** `s.lower()`, restricted to the ASCII letters. */
  function Lower(s: string): (r: string)
    ensures |r| == |s|
    ensures forall i :: 0 <= i < |s| ==> r[i] == LowerChar(s[i])
  {
    MapChars(s, LowerChar)
  }

  /** A string that `lower()` leaves as it is. */
  ghost predicate IsLowered(s: string)
  {
    forall i :: 0 <= i < |s| ==> LowerChar(s[i]) == s[i]
  }

  /** `s.capitalize()`: the first character upper case, every other one lower case. */
  function Capitalize(s: string): (r: string)
    ensures |r| == |s|
    ensures s != [] ==> r[0] == UpperChar(s[0])
    ensures forall i :: 0 < i < |s| ==> r[i] == LowerChar(s[i])
  {
    if s == [] then [] else [UpperChar(s[0])] + Lower(s[1..])
  }

  lemma LowerCharIdempotent(c: char)
    ensures LowerChar(LowerChar(c)) == LowerChar(c)
    ensures UpperChar(UpperChar(c)) == UpperChar(c)
    ensures LowerChar(c) == c ==> LowerChar(UpperChar(c)) == c
  {
  }

  /** Capitalising lower-case text: lowering it again gives the text back. */
  lemma LowerCapitalize(s: string)
    requires IsLowered(s)
    ensures Lower(Capitalize(s)) == s
    ensures s != [] ==> UpperChar(Capitalize(s)[0]) == Capitalize(s)[0]
    ensures forall i :: 0 < i < |s| ==> LowerChar(Capitalize(s)[i]) == Capitalize(s)[i]
  {
    var r := Capitalize(s);
    forall i | 0 <= i < |s|
      ensures Lower(r)[i] == s[i]
    {
      LowerCharIdempotent(s[i]);
    }
    forall i | 0 < i < |s|
      ensures LowerChar(r[i]) == r[i]
    {
      LowerCharIdempotent(s[i]);
    }
    if s != [] {
      LowerCharIdempotent(s[0]);
    }
  }

  /** Capitalising lower-case text upper-cases its first character only. */
  lemma CapitalizeLowered(s: string)
    requires s != [] && IsLowered(s)
    ensures Capitalize(s) == [UpperChar(s[0])] + s[1..]
  {
    assert Lower(s[1..]) == s[1..];
  }

  lemma LowerIsLowered(s: string)
    ensures IsLowered(Lower(s))
  {
    forall i | 0 <= i < |s|
      ensures LowerChar(Lower(s)[i]) == Lower(s)[i]
    {
      LowerCharIdempotent(s[i]);
    }
  }

  // ---------------------------------------------------------------- strip

  /** The number of `c` at the start of `s`. */
  function Leading(s: string, c: char): (n: nat)
    ensures n <= |s|
    ensures forall k :: 0 <= k < n ==> s[k] == c
    ensures n < |s| ==> s[n] != c
  {
    if s != [] && s[0] == c then 1 + Leading(s[1..], c) else 0
  }

  /** The number of `c` at the end of `s`. */
  function Trailing(s: string, c: char): (n: nat)
    ensures n <= |s|
    ensures forall k :: |s| - n <= k < |s| ==> s[k] == c
    ensures n < |s| ==> s[|s| - 1 - n] != c
  {
    if s != [] && s[|s| - 1] == c then 1 + Trailing(s[..|s| - 1], c) else 0
  }

  /** `s.lstrip(c)`: every leading `c` removed. */
  function LStrip(s: string, c: char): string
  {
    s[Leading(s, c)..]
  }

  /** `s.rstrip(c)`: every trailing `c` removed. */
  function RStrip(s: string, c: char): string
  {
    s[..|s| - Trailing(s, c)]
  }

  /** `s.strip(c)`: every leading and every trailing `c` removed. */
  function Strip(s: string, c: char): (r: string)
    ensures |r| <= |s|
    ensures r != [] ==> r[0] != c && r[|r| - 1] != c
  {
    RStrip(LStrip(s, c), c)
  }

  /** A slice of `s` with only `c` cut off at each end and no `c` left at either end. */
  ghost predicate IsStripOf(r: string, s: string, c: char)
  {
    exists i, j :: 0 <= i <= j <= |s| && r == s[i..j]
      && (forall k :: 0 <= k < i ==> s[k] == c)
      && (forall k :: j <= k < |s| ==> s[k] == c)
      && (r != [] ==> r[0] != c && r[|r| - 1] != c)
  }

  /** Where the stripped text sits in `s`. */
  lemma StripAt(s: string, c: char) returns (i: nat)
    ensures i + |Strip(s, c)| <= |s| && Strip(s, c) == s[i..i + |Strip(s, c)|]
  {
    i := Leading(s, c);
  }

  lemma StripIsSlice(s: string, c: char)
    ensures IsStripOf(Strip(s, c), s, c)
  {
    var t := LStrip(s, c);
    var r := Strip(s, c);
    var i := Leading(s, c);
    var j := i + |r|;
    assert r == s[i..j];
    forall k | j <= k < |s|
      ensures s[k] == c
    {
      assert s[k] == t[k - i];
    }
  }

  lemma SliceOfSliceOfSlice(s: string, a: string, b: string, n: string, i: nat, j: nat, k: nat)
    requires i + |a| <= |s| && a == s[i..i + |a|]
    requires j + |b| <= |a| && b == a[j..j + |b|]
    requires k + |n| <= |b| && n == b[k..k + |n|]
    ensures exists lo, hi :: 0 <= lo <= hi <= |s| && n == s[lo..hi]
  {
    assert forall m :: 0 <= m < |n| ==> n[m] == b[k + m] == a[j + k + m] == s[i + j + k + m];
    assert n == s[i + j + k..i + j + k + |n|];
  }

  // ---------------------------------------------------------------- split and join

  /** `s.split(" ")`: the pieces between single spaces, empty pieces included. */
  function Split(s: string): (ws: seq<string>)
    ensures |ws| > 0
    ensures forall i :: 0 <= i < |ws| ==> ' ' !in ws[i]
  {
    if s == [] then [[]]
    else
      var rest := Split(s[1..]);
      if s[0] == ' ' then [[]] + rest
      else [[s[0]] + rest[0]] + rest[1..]
  }

  /** `" ".join(ws)`. */
  function Join(ws: seq<string>): (r: string)
    ensures |ws| > 0 ==> ws[0] <= r
  {
    if |ws| == 0 then []
    else if |ws| == 1 then ws[0]
    else ws[0] + " " + Join(ws[1..])
  }

  /** `s.split(" ")` has one piece more than `s` has spaces. */
  lemma {:induction false} SplitCount(s: string)
    ensures |Split(s)| == multiset(s)[' '] + 1
  {
    if s != [] {
      SplitCount(s[1..]);
      assert s == [s[0]] + s[1..];
    }
  }

  /** `" ".join(ws)` puts exactly one space between words that hold none. */
  lemma {:induction false} JoinCount(ws: seq<string>)
    requires |ws| > 0
    requires forall i :: 0 <= i < |ws| ==> ' ' !in ws[i]
    ensures multiset(Join(ws))[' '] == |ws| - 1
  {
    assert multiset(ws[0])[' '] == 0;
    if |ws| > 1 {
      JoinCount(ws[1..]);
    }
  }

  /** Every word is non-empty, so that `word[0]` can be taken. */
  predicate AllNonEmpty(ws: seq<string>)
  {
    forall i :: 0 <= i < |ws| ==> ws[i] != []
  }

  /** Applies `f` to every character of every word. */
  function MapWords(ws: seq<string>, f: char -> char): (r: seq<string>)
    ensures |r| == |ws|
    ensures forall i :: 0 <= i < |ws| ==> r[i] == MapChars(ws[i], f)
  {
    seq(|ws|, i requires 0 <= i < |ws| => MapChars(ws[i], f))
  }

  /** Joining what was split gives the string back. */
  lemma {:induction false} JoinSplit(s: string)
    ensures Join(Split(s)) == s
  {
    if s != [] {
      var rest := Split(s[1..]);
      JoinSplit(s[1..]);
      if s[0] == ' ' {
        assert Split(s) == [[]] + rest;
        assert s == [] + " " + s[1..];
      } else if |rest| == 1 {
        assert s == [s[0]] + rest[0];
      } else {
        var ws := Split(s);
        assert ws[1..] == rest[1..];
        assert Join(rest) == rest[0] + " " + Join(rest[1..]);
        assert s == [s[0]] + s[1..];
      }
    }
  }

  lemma {:induction false} SplitWord(w: string)
    requires ' ' !in w
    ensures Split(w) == [w]
  {
    if w != [] {
      assert w[0] != ' ';
      SplitWord(w[1..]);
      assert [w[0]] + w[1..] == w;
    }
  }

  lemma {:induction false} SplitAfterWord(w: string, t: string)
    requires ' ' !in w
    ensures Split(w + " " + t) == [w] + Split(t)
  {
    var s := w + " " + t;
    if w == [] {
      assert s[0] == ' ' && s[1..] == t;
    } else {
      assert w[0] != ' ' && s[0] == w[0];
      assert s[1..] == w[1..] + " " + t;
      SplitAfterWord(w[1..], t);
      assert [w[0]] + w[1..] == w;
    }
  }

  /** Splitting what was joined gives the words back, when no word holds a space. */
  lemma {:induction false} SplitJoin(ws: seq<string>)
    requires |ws| > 0
    requires forall i :: 0 <= i < |ws| ==> ' ' !in ws[i]
    ensures Split(Join(ws)) == ws
  {
    if |ws| == 1 {
      SplitWord(ws[0]);
    } else {
      SplitJoin(ws[1..]);
      SplitAfterWord(ws[0], Join(ws[1..]));
      assert ws == [ws[0]] + ws[1..];
    }
  }

  lemma MapWordsAfterSpace(ws: seq<string>, f: char -> char)
    ensures MapWords([[]] + ws, f) == [[]] + MapWords(ws, f)
  {
  }

  lemma MapWordsExtendFirst(c: char, ws: seq<string>, f: char -> char)
    requires |ws| > 0
    ensures MapWords([[c] + ws[0]] + ws[1..], f)
         == [[f(c)] + MapWords(ws, f)[0]] + MapWords(ws, f)[1..]
  {
    assert MapChars([c] + ws[0], f) == [f(c)] + MapChars(ws[0], f);
  }

  /** A character map that keeps spaces, and only spaces, maps each word on its own. */
  lemma {:induction false} SplitMapChars(s: string, f: char -> char)
    requires KeepsSpaces(f)
    ensures Split(MapChars(s, f)) == MapWords(Split(s), f)
  {
    if s != [] {
      var m := MapChars(s, f);
      var rest := Split(s[1..]);
      SplitMapChars(s[1..], f);
      assert m[1..] == MapChars(s[1..], f);
      if s[0] == ' ' {
        assert m[0] == ' ';
        MapWordsAfterSpace(rest, f);
      } else {
        assert m[0] != ' ';
        MapWordsExtendFirst(s[0], rest, f);
      }
    }
  }

  /** The number of words of `s.split(" ")`. */
  lemma SplitMapCharsCount(s: string, f: char -> char)
    requires KeepsSpaces(f)
    ensures |Split(MapChars(s, f))| == |Split(s)|
    ensures AllNonEmpty(Split(MapChars(s, f))) <==> AllNonEmpty(Split(s))
  {
    SplitMapChars(s, f);
  }

  /** The words of lower-cased text are lower case. */
  lemma SplitLowerLowered(s: string)
    ensures forall i :: 0 <= i < |Split(Lower(s))| ==> IsLowered(Split(Lower(s))[i])
  {
    LowerKeepsSpaces();
    SplitMapChars(s, LowerChar);
    forall i | 0 <= i < |Split(Lower(s))|
      ensures IsLowered(Split(Lower(s))[i])
    {
      LowerIsLowered(Split(s)[i]);
    }
  }

  lemma LowerKeepsSpaces()
    ensures KeepsSpaces(LowerChar)
  {
  }
}
