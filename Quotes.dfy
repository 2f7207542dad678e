/**
 * The `Quote` value object of the qualifier: normalising and checking the
 * quote text at construction, and rendering it in one of three variant modes
 * (as it is, "uwu" speak, or Pig Latin).
 */
module Quotes {
  import opened Wrappers
  import opened PyStr

  const MaxQuoteLength := 50

  datatype VariantMode = Normal | Uwu | PigLatin

  /** A constructed quote: its normalised text and its mode. */
  datatype Quote = Quote(text: string, mode: VariantMode)

  /** `ValueError("Quote is too long")` raised by the constructor. */
  datatype QuoteError = QuoteTooLong

  /**
   * Failures of rendering: `ValueError("Quote was not modified")`, and the
   * `IndexError` of `word[0]` on an empty word.
   */
  datatype RenderError = NotModified | EmptyWord

  /** A rendering; `partial` stands for the "only partially transformed" warning. */
  datatype Rendered = Rendered(text: string, partial: bool)

  // ---------------------------------------------------------------- construction

  /** Every leading and trailing `"` removed, then every `“`, then every `”`. */
  function Normalise(raw: string): (r: string)
    ensures |r| <= |raw|
    ensures r != [] ==> r[0] != '”' && r[|r| - 1] != '”'
  {
    Strip(Strip(Strip(raw, '"'), '“'), '”')
  }

  /** `Quote(quote, mode)`: fails exactly when the normalised text is over 50 characters. */
  function NewQuote(raw: string, mode: VariantMode): (r: Result<Quote, QuoteError>)
    ensures r.Ok? <==> |Normalise(raw)| <= MaxQuoteLength
    ensures r.Ok? ==> r.value.text == Normalise(raw) && r.value.mode == mode
    ensures r.Ok? ==> |r.value.text| <= MaxQuoteLength
  {
    var text := Normalise(raw);
    if |text| > MaxQuoteLength then Err(QuoteTooLong) else Ok(Quote(text, mode))
  }

  /** The normalised text is one contiguous slice of the raw text. */
  lemma NormaliseIsSlice(raw: string)
    ensures exists i, j :: 0 <= i <= j <= |raw| && Normalise(raw) == raw[i..j]
  {
    StripChainIsSlice(raw, '"', '“', '”');
  }

  /** Three strips in a row leave one contiguous slice of the input. */
  lemma StripChainIsSlice(s: string, c1: char, c2: char, c3: char)
    ensures exists lo, hi :: 0 <= lo <= hi <= |s| && Strip(Strip(Strip(s, c1), c2), c3) == s[lo..hi]
  {
    var a := Strip(s, c1);
    var b := Strip(a, c2);
    var i1 := StripAt(s, c1);
    var i2 := StripAt(a, c2);
    var i3 := StripAt(b, c3);
    SliceOfSliceOfSlice(s, a, b, Strip(b, c3), i1, i2, i3);
  }

  /** Each of the three passes strips its character off both ends as far as it goes. */
  lemma NormaliseSteps(raw: string)
    ensures IsStripOf(Strip(raw, '"'), raw, '"')
    ensures IsStripOf(Strip(Strip(raw, '"'), '“'), Strip(raw, '"'), '“')
    ensures IsStripOf(Normalise(raw), Strip(Strip(raw, '"'), '“'), '”')
  {
    StripIsSlice(raw, '"');
    StripIsSlice(Strip(raw, '"'), '“');
    StripIsSlice(Strip(Strip(raw, '"'), '“'), '”');
  }

  // ---------------------------------------------------------------- uwu

  predicate IsLOrR(c: char)
  {
    c == 'l' || c == 'r' || c == 'L' || c == 'R'
  }

  /** The character the replacement step puts in place of `c`. */
  function UwuChar(c: char): char
  {
    if c == 'L' || c == 'R' then 'W'
    else if c == 'l' || c == 'r' then 'w'
    else c
  }

  /** The chained `replace` calls: `L`, `R` become `W` and `l`, `r` become `w`. */
  function UwuReplace(s: string): (r: string)
    ensures |r| == |s|
    ensures forall i :: 0 <= i < |s| ==> r[i] == UwuChar(s[i])
    ensures forall i :: 0 <= i < |s| ==> !IsLOrR(r[i])
    ensures r == s <==> forall i :: 0 <= i < |s| ==> !IsLOrR(s[i])
  {
    var r := ReplaceAll(ReplaceAll(ReplaceAll(ReplaceAll(s, 'L', 'W'), 'R', 'W'), 'l', 'w'), 'r', 'w');
    assert r == s <== forall i :: 0 <= i < |s| ==> !IsLOrR(s[i]) by {
      if forall i :: 0 <= i < |s| ==> !IsLOrR(s[i]) {
        assert forall i :: 0 <= i < |s| ==> r[i] == s[i];
      }
    }
    assert r == s ==> forall i :: 0 <= i < |s| ==> !IsLOrR(s[i]) by {
      if r == s {
        forall i | 0 <= i < |s|
          ensures !IsLOrR(s[i])
        {
          assert r[i] == s[i];
        }
      }
    }
    r
  }

  predicate IsStutter(c: char)
  {
    c == 'u' || c == 'U'
  }

  predicate StartsWithStutter(w: string)
  {
    w != [] && IsStutter(w[0])
  }

  /** A word starting with `u` or `U` gets that letter and a hyphen in front. */
  function StutterWord(w: string): (r: string)
    requires w != []
    ensures StartsWithStutter(w) ==> r == [w[0]] + "-" + w && |r| == |w| + 2
    ensures !StartsWithStutter(w) ==> r == w
    ensures ' ' !in w ==> ' ' !in r
  {
    if IsStutter(w[0]) then [w[0]] + "-" + w else w
  }

  function StutterAll(ws: seq<string>): (r: seq<string>)
    requires AllNonEmpty(ws)
    ensures |r| == |ws|
    ensures forall i :: 0 <= i < |ws| ==> r[i] == StutterWord(ws[i])
  {
    seq(|ws|, i requires 0 <= i < |ws| => StutterWord(ws[i]))
  }

  /** The number of words that start with `u` or `U`. */
  function StutterCount(ws: seq<string>): nat
  {
    if ws == [] then 0
    else (if StartsWithStutter(ws[0]) then 1 else 0) + StutterCount(ws[1..])
  }

  /**
   * `_do_uwu`: replacement, then stutter, then the "not modified" check
   * against the input, then the fallback to the replacement-only text when
   * the stuttered text is over 50 characters.
   */
  function UwuVariant(s: string): (r: Result<Rendered, RenderError>)
    ensures r.Ok? && |s| <= MaxQuoteLength ==> |r.value.text| <= MaxQuoteLength
    ensures r.Ok? && r.value.partial ==> r.value.text == UwuReplace(s)
  {
    var replaced := UwuReplace(s);
    var words := Split(replaced);
    if !AllNonEmpty(words) then Err(EmptyWord)
    else
      var stuttered := Join(StutterAll(words));
      if stuttered == s then Err(NotModified)
      else if |stuttered| > MaxQuoteLength then Ok(Rendered(replaced, true))
      else Ok(Rendered(stuttered, false))
  }

  /** Stuttering adds two characters per word that starts with `u` or `U`. */
  lemma {:induction false} StutterLength(ws: seq<string>)
    requires AllNonEmpty(ws)
    ensures |Join(StutterAll(ws))| == |Join(ws)| + 2 * StutterCount(ws)
  {
    if |ws| > 1 {
      StutterLength(ws[1..]);
      assert StutterAll(ws)[1..] == StutterAll(ws[1..]);
    }
  }

  /** Stuttering changes the words exactly when one of them starts with `u` or `U`. */
  lemma {:induction false} StutterAllUnchanged(ws: seq<string>)
    requires AllNonEmpty(ws)
    ensures StutterAll(ws) == ws <==> StutterCount(ws) == 0
  {
    if ws != [] {
      StutterAllUnchanged(ws[1..]);
      assert StutterAll(ws)[1..] == StutterAll(ws[1..]);
      if StutterAll(ws) == ws {
        assert StutterAll(ws)[0] == ws[0];
      }
      if StutterCount(ws) == 0 {
        assert StutterAll(ws) == [StutterWord(ws[0])] + StutterAll(ws[1..]);
        assert ws == [ws[0]] + ws[1..];
      }
    }
  }

  lemma UwuCharKeepsSpaces()
    ensures KeepsSpaces(UwuChar)
  {
  }

  /** The replacement keeps the words, their lengths and which ones start with `u` or `U`. */
  lemma {:induction false} UwuReplaceWords(s: string)
    ensures Split(UwuReplace(s)) == MapWords(Split(s), UwuChar)
    ensures StutterCount(Split(UwuReplace(s))) == StutterCount(Split(s))
    ensures AllNonEmpty(Split(UwuReplace(s))) <==> AllNonEmpty(Split(s))
  {
    assert UwuReplace(s) == MapChars(s, UwuChar);
    UwuCharKeepsSpaces();
    SplitMapChars(s, UwuChar);
    StutterCountMapped(Split(s));
  }

  lemma {:induction false} StutterCountMapped(ws: seq<string>)
    ensures StutterCount(MapWords(ws, UwuChar)) == StutterCount(ws)
  {
    if ws != [] {
      StutterCountMapped(ws[1..]);
      assert MapWords(ws, UwuChar)[1..] == MapWords(ws[1..], UwuChar);
    }
  }

  /**
   * What a full (not partial) uwu rendering is: the replaced words, each
   * stuttered if it starts with `u` or `U`; as many words as the input; two
   * characters longer per stuttered word.
   */
  lemma UwuFull(s: string)
    requires UwuVariant(s).Ok? && !UwuVariant(s).value.partial
    ensures var r := UwuVariant(s).value.text;
      && Split(r) == StutterAll(Split(UwuReplace(s)))
      && |Split(r)| == |Split(s)|
      && |r| == |s| + 2 * StutterCount(Split(s))
      && |r| <= MaxQuoteLength
  {
    var words := Split(UwuReplace(s));
    UwuReplaceWords(s);
    SplitJoin(StutterAll(words));
    StutterLength(words);
    JoinSplit(UwuReplace(s));
  }

  /**
   * A successful uwu rendering falls back to the replacement-only text
   * exactly when stuttering would take the text over 50 characters.
   */
  lemma UwuFallback(s: string)
    requires UwuVariant(s).Ok?
    ensures UwuVariant(s).value.partial <==> |s| + 2 * StutterCount(Split(s)) > MaxQuoteLength
    ensures UwuVariant(s).value.partial ==> UwuVariant(s).value.text == UwuReplace(s)
  {
    var words := Split(UwuReplace(s));
    UwuReplaceWords(s);
    StutterLength(words);
    JoinSplit(UwuReplace(s));
  }

  /** Uwu fails on an empty word exactly when the input has one. */
  lemma UwuEmptyWord(s: string)
    ensures UwuVariant(s) == Err(EmptyWord) <==> !AllNonEmpty(Split(s))
  {
    UwuReplaceWords(s);
  }

  /**
   * Uwu reports "not modified" exactly when the input has no empty word, no
   * `l`, `L`, `r`, `R` and no word starting with `u` or `U`.
   */
  lemma UwuNotModified(s: string)
    ensures UwuVariant(s) == Err(NotModified) <==>
      && AllNonEmpty(Split(s))
      && (forall i :: 0 <= i < |s| ==> !IsLOrR(s[i]))
      && StutterCount(Split(s)) == 0
  {
    var replaced := UwuReplace(s);
    var words := Split(replaced);
    UwuReplaceWords(s);
    JoinSplit(replaced);
    if AllNonEmpty(words) {
      StutterLength(words);
      StutterAllUnchanged(words);
    }
  }

  lemma UwuReplaceNothing(s: string)
    requires forall i :: 0 <= i < |s| ==> !IsLOrR(s[i])
    ensures UwuReplace(s) == s
  {
  }

  lemma StutterGrows(ws: seq<string>, s: string)
    requires AllNonEmpty(ws) && Join(ws) == s
    requires |s| + 2 * StutterCount(ws) > MaxQuoteLength
    ensures |Join(StutterAll(ws))| > MaxQuoteLength
    ensures StutterCount(ws) > 0 ==> Join(StutterAll(ws)) != s
  {
    StutterLength(ws);
  }

  lemma UnreplacedFallback(s: string)
    requires AllNonEmpty(Split(s)) && StutterCount(Split(s)) > 0
    requires UwuReplace(s) == s
    requires |s| + 2 * StutterCount(Split(s)) > MaxQuoteLength
    ensures UwuVariant(s) == Ok(Rendered(s, true))
  {
    JoinSplit(s);
    StutterGrows(Split(s), s);
  }

  /**
   * The "not modified" check comes before the length fallback, so a
   * rendering that falls back can be the input itself: no `l`/`r` to
   * replace, and stuttering alone went over 50 characters.
   */
  lemma UwuFallbackKeepsInput(s: string)
    requires AllNonEmpty(Split(s)) && StutterCount(Split(s)) > 0
    requires forall i :: 0 <= i < |s| ==> !IsLOrR(s[i])
    requires |s| + 2 * StutterCount(Split(s)) > MaxQuoteLength
    ensures UwuVariant(s) == Ok(Rendered(s, true))
  {
    UwuReplaceNothing(s);
    UnreplacedFallback(s);
  }

  // ---------------------------------------------------------------- pig latin

  predicate IsVowel(c: char)
  {
    c == 'a' || c == 'e' || c == 'i' || c == 'o' || c == 'u'
  }

  /** The index of the first vowel of `w`, if it has one. */
  function FirstVowel(w: string): (r: Option<nat>)
    ensures r.Some? ==> r.value < |w| && IsVowel(w[r.value])
    ensures r.Some? ==> forall k :: 0 <= k < r.value ==> !IsVowel(w[k])
    ensures r.None? ==> forall k :: 0 <= k < |w| ==> !IsVowel(w[k])
  {
    if w == [] then None
    else if IsVowel(w[0]) then Some(0)
    else match FirstVowel(w[1..])
      case None => None
      case Some(i) => Some(i + 1)
  }

  /**
   * One word in Pig Latin: a vowel-initial word gets "way"; otherwise the
   * word is rotated to start at its first vowel and gets "ay"; a word
   * without a vowel stays as it is.
   */
  function PigWord(w: string): (r: string)
    requires w != []
    ensures IsVowel(w[0]) ==> r == w + "way"
    ensures forall i :: (0 < i < |w| && IsVowel(w[i]) && forall k :: 0 <= k < i ==> !IsVowel(w[k])) ==>
      r == w[i..] + w[..i] + "ay"
    ensures (forall k :: 0 <= k < |w| ==> !IsVowel(w[k])) ==> r == w
  {
    if IsVowel(w[0]) then w + "way"
    else match FirstVowel(w)
      case Some(i) => w[i..] + w[..i] + "ay"
      case None => w
  }

  function PigAll(ws: seq<string>): (r: seq<string>)
    requires AllNonEmpty(ws)
    ensures |r| == |ws|
    ensures forall i :: 0 <= i < |ws| ==> r[i] == PigWord(ws[i])
  {
    seq(|ws|, i requires 0 <= i < |ws| => PigWord(ws[i]))
  }

  /**
   * `_do_piglatin`: each word of the lower-cased text rewritten, the words
   * joined with single spaces and capitalised; over 50 characters fails.
   */
  function PigLatinVariant(s: string): (r: Result<string, RenderError>)
    ensures r.Ok? ==> |r.value| <= MaxQuoteLength
  {
    var words := Split(Lower(s));
    if !AllNonEmpty(words) then Err(EmptyWord)
    else
      var r := Capitalize(Join(PigAll(words)));
      if |r| > MaxQuoteLength then Err(NotModified) else Ok(r)
  }

  /** A word of lower-case text stays lower case and free of spaces in Pig Latin. */
  lemma PigWordLowered(w: string)
    requires w != [] && IsLowered(w) && ' ' !in w
    ensures IsLowered(PigWord(w)) && ' ' !in PigWord(w)
  {
    var r := PigWord(w);
    if !IsVowel(w[0]) && FirstVowel(w).Some? {
      var i := FirstVowel(w).value;
      assert r == w[i..] + w[..i] + "ay";
      forall k | 0 <= k < |r|
        ensures LowerChar(r[k]) == r[k] && r[k] != ' '
      {
        if k < |w| - i {
          assert r[k] == w[i + k];
        } else if k < |w| {
          assert r[k] == w[k - (|w| - i)];
        }
      }
    } else {
      forall k | 0 <= k < |r|
        ensures LowerChar(r[k]) == r[k] && r[k] != ' '
      {
        if k < |w| {
          assert r[k] == w[k];
        }
      }
    }
  }

  lemma {:induction false} JoinLowered(ws: seq<string>)
    requires forall i :: 0 <= i < |ws| ==> IsLowered(ws[i])
    ensures IsLowered(Join(ws))
  {
    if |ws| > 1 {
      JoinLowered(ws[1..]);
      var j := Join(ws);
      assert j == ws[0] + " " + Join(ws[1..]);
      forall k | 0 <= k < |j|
        ensures LowerChar(j[k]) == j[k]
      {
        if k < |ws[0]| {
          assert j[k] == ws[0][k];
        } else if k > |ws[0]| {
          assert j[k] == Join(ws[1..])[k - |ws[0]| - 1];
        }
      }
    }
  }

  /** The Pig Latin words of lower-case words are lower case and free of spaces. */
  lemma PigAllLowered(ws: seq<string>)
    requires AllNonEmpty(ws)
    requires forall i :: 0 <= i < |ws| ==> IsLowered(ws[i]) && ' ' !in ws[i]
    ensures forall i :: 0 <= i < |ws| ==> IsLowered(PigAll(ws)[i]) && ' ' !in PigAll(ws)[i]
  {
    forall i | 0 <= i < |ws|
      ensures IsLowered(PigAll(ws)[i]) && ' ' !in PigAll(ws)[i]
    {
      PigWordLowered(ws[i]);
    }
  }

  lemma PigAllJoined(s: string)
    requires AllNonEmpty(Split(Lower(s)))
    ensures var pig := PigAll(Split(Lower(s)));
      IsLowered(Join(pig)) && Split(Join(pig)) == pig
  {
    var words := Split(Lower(s));
    var pig := PigAll(words);
    SplitLowerLowered(s);
    PigAllLowered(words);
    JoinLowered(pig);
    SplitJoin(pig);
  }

  /**
   * What a Pig Latin rendering is: lowered again, its words are the Pig
   * Latin words of the lowered input, as many as the input has; its first
   * character is upper case and the rest lower case.
   */
  lemma PigLatinWords(s: string)
    requires PigLatinVariant(s).Ok?
    ensures var r := PigLatinVariant(s).value;
      && Split(Lower(r)) == PigAll(Split(Lower(s)))
      && |Split(r)| == |Split(s)|
      && (r != [] ==> r[0] == UpperChar(r[0]))
      && (forall i :: 0 < i < |r| ==> LowerChar(r[i]) == r[i])
  {
    var r := PigLatinVariant(s).value;
    var pig := PigAll(Split(Lower(s)));
    var joined := Join(pig);
    assert r == Capitalize(joined);
    PigAllJoined(s);
    LowerCapitalize(joined);
    LowerKeepsSpaces();
    SplitMapCharsCount(r, LowerChar);
    SplitMapCharsCount(s, LowerChar);
  }

  /** The characters Pig Latin adds to a word: 3 for "way", 2 for "ay", none without a vowel. */
  ghost function PigGrowth(w: string): nat
  {
    if w != [] && IsVowel(w[0]) then 3
    else if exists k :: 0 <= k < |w| && IsVowel(w[k]) then 2
    else 0
  }

  ghost function TotalPigGrowth(ws: seq<string>): nat
  {
    if ws == [] then 0 else PigGrowth(ws[0]) + TotalPigGrowth(ws[1..])
  }

  lemma PigWordLength(w: string)
    requires w != []
    ensures |PigWord(w)| == |w| + PigGrowth(w)
  {
    if !IsVowel(w[0]) && FirstVowel(w).Some? {
      var i := FirstVowel(w).value;
      assert PigWord(w) == w[i..] + w[..i] + "ay";
    }
  }

  lemma {:induction false} PigAllLength(ws: seq<string>)
    requires AllNonEmpty(ws)
    ensures |Join(PigAll(ws))| == |Join(ws)| + TotalPigGrowth(ws)
  {
    if ws != [] {
      PigWordLength(ws[0]);
      if |ws| > 1 {
        PigAllLength(ws[1..]);
        assert PigAll(ws)[1..] == PigAll(ws[1..]);
      }
    }
  }

  /**
   * Pig Latin reports "not modified" exactly when the words are non-empty
   * and the rewritten text, the input plus what each word gains, is over
   * 50 characters.
   */
  lemma PigLatinTooLong(s: string)
    ensures PigLatinVariant(s) == Err(NotModified) <==>
      AllNonEmpty(Split(s)) && |s| + TotalPigGrowth(Split(Lower(s))) > MaxQuoteLength
  {
    var words := Split(Lower(s));
    LowerKeepsSpaces();
    SplitMapCharsCount(s, LowerChar);
    JoinSplit(Lower(s));
    if AllNonEmpty(words) {
      PigAllLength(words);
    }
  }

  /** Pig Latin fails on an empty word exactly when the input has one. */
  lemma PigLatinEmptyWord(s: string)
    ensures PigLatinVariant(s) == Err(EmptyWord) <==> !AllNonEmpty(Split(s))
  {
    LowerKeepsSpaces();
    SplitMapCharsCount(s, LowerChar);
  }

  /**
   * `_do_piglatin` as the source runs it: a loop over the words that
   * appends each rewritten word to `pieces`, with an inner scan for the
   * first vowel that stops at it.
   */
  method DoPigLatin(quote: string) returns (r: Result<string, RenderError>)
    ensures r == PigLatinVariant(quote)
  {
    var words := Split(Lower(quote));
    var pieces: seq<string> := [];
    var n := 0;
    while n < |words|
      invariant 0 <= n <= |words|
      invariant AllNonEmpty(words[..n])
      invariant pieces == PigAll(words[..n])
    {
      var w := words[n];
      if w == [] {
        return Err(EmptyWord);
      }
      var word := w;
      if IsVowel(w[0]) {
        word := w + "way";
      } else {
        var index := 0;
        while index < |w|
          invariant 0 <= index <= |w|
          invariant word == w
          invariant forall k :: 0 <= k < index ==> !IsVowel(w[k])
        {
          if IsVowel(w[index]) {
            word := w[index..] + w[..index] + "ay";
            break;
          }
          index := index + 1;
        }
      }
      assert word == PigWord(w);
      pieces := pieces + [word];
      n := n + 1;
      assert words[..n] == words[..n - 1] + [w];
    }
    assert words[..n] == words;
    var joined := Capitalize(Join(pieces));
    if |joined| > MaxQuoteLength {
      return Err(NotModified);
    }
    return Ok(joined);
  }

  // ---------------------------------------------------------------- rendering

  /** `_create_variant`: the rendering of a quote in its own mode. */
  function CreateVariant(q: Quote): (r: Result<Rendered, RenderError>)
    ensures q.mode == Normal ==> r == Ok(Rendered(q.text, false))
    ensures r.Ok? && r.value.partial ==> q.mode == Uwu
    ensures r.Ok? && |q.text| <= MaxQuoteLength ==> |r.value.text| <= MaxQuoteLength
  {
    match q.mode
    case Uwu => UwuVariant(q.text)
    case PigLatin =>
      (match PigLatinVariant(q.text)
       case Ok(t) => Ok(Rendered(t, false))
       case Err(e) => Err(e))
    case Normal => Ok(Rendered(q.text, false))
  }

  /** A quote constructed in NORMAL mode renders as its normalised input. */
  lemma NormalRoundTrip(raw: string)
    requires NewQuote(raw, Normal).Ok?
    ensures CreateVariant(NewQuote(raw, Normal).value) == Ok(Rendered(Normalise(raw), false))
  {
  }
}
