/**
 * Worked renderings of concrete quotes, and the 50/51 character boundary of
 * construction.
 */
module QuoteExamples {
  import opened Wrappers
  import opened PyStr
  import opened Quotes
  import opened QuoteStore

  /** `s` is `w1 + " " + w2` for two words without spaces. */
  lemma SplitTwo(s: string, w1: string, w2: string)
    requires ' ' !in w1 && ' ' !in w2 && s == w1 + " " + w2
    ensures Split(s) == [w1, w2]
  {
    SplitWord(w2);
    SplitAfterWord(w1, w2);
  }

  /** The Pig Latin rendering, from its stages worked out one by one. */
  lemma PigLatinFromStages(s: string, words: seq<string>, joined: string)
    requires Split(Lower(s)) == words && AllNonEmpty(words)
    requires Join(PigAll(words)) == joined && |joined| <= MaxQuoteLength
    ensures PigLatinVariant(s) == Ok(Capitalize(joined))
  {
  }

  /** The uwu rendering, from its stages worked out one by one. */
  lemma UwuFromStages(s: string, replaced: string, words: seq<string>, stuttered: string)
    requires UwuReplace(s) == replaced && Split(replaced) == words && AllNonEmpty(words)
    requires Join(StutterAll(words)) == stuttered && stuttered != s && |stuttered| <= MaxQuoteLength
    ensures UwuVariant(s) == Ok(Rendered(stuttered, false))
  {
  }

  lemma PigTwoWords(w1: string, w2: string)
    requires w1 != [] && w2 != []
    ensures Join(PigAll([w1, w2])) == PigWord(w1) + " " + PigWord(w2)
  {
    assert PigAll([w1, w2]) == [PigWord(w1), PigWord(w2)];
  }

  /** The Pig Latin rendering of a quote that lowers to two words. */
  lemma PigLatinTwoWords(s: string, w1: string, w2: string, joined: string)
    requires w1 != [] && w2 != [] && ' ' !in w1 && ' ' !in w2
    requires Lower(s) == w1 + " " + w2
    requires PigWord(w1) + " " + PigWord(w2) == joined && |joined| <= MaxQuoteLength
    ensures PigLatinVariant(s) == Ok(Capitalize(joined))
  {
    SplitTwo(Lower(s), w1, w2);
    PigTwoWords(w1, w2);
    PigLatinFromStages(s, [w1, w2], joined);
  }

  lemma StutterTwoWords(w1: string, w2: string)
    requires w1 != [] && w2 != []
    ensures Join(StutterAll([w1, w2])) == StutterWord(w1) + " " + StutterWord(w2)
  {
    assert StutterAll([w1, w2]) == [StutterWord(w1), StutterWord(w2)];
  }

  lemma PigHello(w: string)
    requires w == "hello"
    ensures PigWord(w) == "ellohay"
  {
    assert !IsVowel(w[0]) && IsVowel(w[1]);
    assert w[1..] + w[..1] + "ay" == "ellohay";
  }

  lemma PigWorld(w: string)
    requires w == "world"
    ensures PigWord(w) == "orldway"
  {
    assert !IsVowel(w[0]) && IsVowel(w[1]);
    assert w[1..] + w[..1] + "ay" == "orldway";
  }

  lemma HelloWorldCapitalized(t: string)
    requires t == "ellohay orldway"
    ensures Capitalize(t) == "Ellohay orldway"
  {
    assert IsLowered(t);
    CapitalizeLowered(t);
    assert [UpperChar(t[0])] + t[1..] == "Ellohay orldway";
  }

  /** "hello world" in Pig Latin is "Ellohay orldway". */
  lemma PigLatinHelloWorld(s: string)
    requires s == "hello world"
    ensures PigLatinVariant(s) == Ok("Ellohay orldway")
  {
    assert Lower(s) == "hello" + " " + "world";
    PigHello("hello");
    PigWorld("world");
    assert "ellohay" + " " + "orldway" == "ellohay orldway";
    PigLatinTwoWords(s, "hello", "world", "ellohay orldway");
    HelloWorldCapitalized("ellohay orldway");
  }

  lemma PigApple(w: string)
    requires w == "apple"
    ensures PigWord(w) == "appleway"
  {
    assert IsVowel(w[0]);
  }

  lemma PigPie(w: string)
    requires w == "pie"
    ensures PigWord(w) == "iepay"
  {
    assert !IsVowel(w[0]) && IsVowel(w[1]);
    assert w[1..] + w[..1] + "ay" == "iepay";
  }

  lemma ApplePieCapitalized(t: string)
    requires t == "appleway iepay"
    ensures Capitalize(t) == "Appleway iepay"
  {
    assert IsLowered(t);
    CapitalizeLowered(t);
    assert [UpperChar(t[0])] + t[1..] == "Appleway iepay";
  }

  /** "apple pie" in Pig Latin is "Appleway iepay": only "apple" starts with a vowel. */
  lemma PigLatinApplePie(s: string)
    requires s == "apple pie"
    ensures PigLatinVariant(s) == Ok("Appleway iepay")
  {
    assert Lower(s) == "apple" + " " + "pie";
    PigApple("apple");
    PigPie("pie");
    assert "appleway" + " " + "iepay" == "appleway iepay";
    PigLatinTwoWords(s, "apple", "pie", "appleway iepay");
    ApplePieCapitalized("appleway iepay");
  }

  lemma HelloWorldReplaced(s: string)
    requires s == "hello world"
    ensures UwuReplace(s) == "hewwo wowwd"
  {
  }

  /** A word that does not start with `u` or `U` is not stuttered. */
  lemma NoStutter(w: string)
    requires w != [] && !IsStutter(w[0])
    ensures StutterWord(w) == w
  {
  }

  /** The uwu rendering of a quote whose replaced text is two words. */
  lemma UwuTwoWords(s: string, w1: string, w2: string, joined: string)
    requires w1 != [] && w2 != [] && ' ' !in w1 && ' ' !in w2
    requires UwuReplace(s) == w1 + " " + w2
    requires StutterWord(w1) + " " + StutterWord(w2) == joined
    requires joined != s && |joined| <= MaxQuoteLength
    ensures UwuVariant(s) == Ok(Rendered(joined, false))
  {
    SplitTwo(UwuReplace(s), w1, w2);
    StutterTwoWords(w1, w2);
    UwuFromStages(s, UwuReplace(s), [w1, w2], joined);
  }

  /** "hello world" in uwu is "hewwo wowwd": replaced, nothing to stutter. */
  lemma UwuHelloWorld(s: string)
    requires s == "hello world"
    ensures UwuVariant(s) == Ok(Rendered("hewwo wowwd", false))
  {
    HelloWorldReplaced(s);
    assert "hewwo wowwd" == "hewwo" + " " + "wowwd";
    NoStutter("hewwo");
    NoStutter("wowwd");
    UwuTwoWords(s, "hewwo", "wowwd", "hewwo wowwd");
  }

  lemma UwuStuttered()
    ensures Join(StutterAll(["uwu"])) == "u-uwu"
  {
    assert StutterWord("uwu") == "u-uwu";
    assert StutterAll(["uwu"]) == ["u-uwu"];
  }

  /** "uwu" in uwu is "u-uwu": nothing replaced, one word stuttered. */
  lemma UwuStutterUwu(s: string)
    requires s == "uwu"
    ensures UwuVariant(s) == Ok(Rendered("u-uwu", false))
  {
    assert UwuReplace(s) == "uwu";
    SplitWord("uwu");
    UwuStuttered();
    UwuFromStages(s, "uwu", ["uwu"], "u-uwu");
  }

  /** Text with no quote character at either end is kept as it is. */
  lemma NormaliseUnquoted(s: string)
    requires s != [] ==> s[0] !in "\"“”" && s[|s| - 1] !in "\"“”"
    ensures Normalise(s) == s
  {
    assert Strip(s, '"') == s;
    assert Strip(s, '“') == s;
  }

  /** Fifty characters are accepted, fifty-one are refused. */
  lemma LengthBoundary(mode: VariantMode)
    ensures NewQuote(seq(50, _ => 'a'), mode).Ok?
    ensures NewQuote(seq(51, _ => 'a'), mode) == Err(QuoteTooLong)
  {
    NormaliseUnquoted(seq(50, _ => 'a'));
    NormaliseUnquoted(seq(51, _ => 'a'));
  }

  lemma NormaliseStraightQuotes(s: string)
    requires s == "\"hi\""
    ensures Normalise(s) == "hi"
  {
    assert Leading(s, '"') == 1;
    assert LStrip(s, '"') == "hi\"";
    assert Trailing("hi\"", '"') == 1;
    assert Strip(s, '"') == "hi";
    assert Strip("hi", '“') == "hi";
  }

  lemma NormaliseCurlyQuotes(s: string)
    requires s == "“hi”"
    ensures Normalise(s) == "hi"
  {
    assert Strip(s, '"') == s;
    assert Leading(s, '“') == 1;
    assert LStrip(s, '“') == "hi”";
    assert Strip(s, '“') == "hi”";
    assert Leading("hi”", '”') == 0;
    assert Trailing("hi”", '”') == 1;
  }

  /**
   * Two quotes typed with different quote characters render alike: the
   * second one is refused and the store keeps the first.
   */
  method DuplicateRefused()
  {
    var db := new Database();
    var straight, curly := "\"hi\"", "“hi”";
    NormaliseStraightQuotes(straight);
    NormaliseCurlyQuotes(curly);
    var first := NewQuote(straight, Normal);
    var second := NewQuote(curly, Normal);
    var r1 := db.AddQuote(first.value);
    assert r1 == Ok(());
    var r2 := db.AddQuote(second.value);
    assert r2 == Err(Duplicate);
    assert db.quotes == [Quote("hi", Normal)];
  }
}
