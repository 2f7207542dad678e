# Quote qualifier, modelled in Dafny

The qualifier takes a short quote and renders it in a variant mode. NORMAL
leaves it as it is. UWU turns `l`/`r` into `w` and stutters words that start
with `u`. PIGLATIN rewrites each word in Pig Latin. Quotes are kept in a
`Database` that refuses a quote whose rendering is already stored.

The model has five modules:

- `Wrappers` (`Wrappers.dfy`): `Option` and `Result`. `Option` is the
  outcome of the first-vowel scan, which can finish without finding a vowel
  (`FirstVowel`). `Result` carries the errors the Python code raises.
- `PyStr` (`PyStr.dfy`): the Python `str` operations the code uses, on ASCII
  text. These are `strip(c)`, `replace(a, b)` for single characters,
  `lower()`, `capitalize()`, `split(" ")` and `" ".join(...)`. Split and join
  are proved to be each other's inverse.
- `Quotes` (`Quotes.dfy`): the `Quote` value and its constructor
  (`NewQuote`). It also holds the two rewriters as pure functions,
  `UwuVariant` and `PigLatinVariant`, and the dispatch `CreateVariant`.
  `DoPigLatin` is the loop form of `_do_piglatin`: it builds `pieces` word by
  word, with an inner first-vowel scan that stops at the vowel. It is proved
  equal to `PigLatinVariant`.
- `QuoteStore` (`QuoteStore.dfy`): the `Database` class. Its `quotes: seq<Quote>`
  field is an instance field, not a class-level global. Its invariant is that
  every stored quote is at most 50 characters long, as the constructor
  ensures, that every one renders, and that the renderings are pairwise
  distinct.
- `QuoteExamples` (`QuoteExamples.dfy`): worked renderings, the 50/51
  character boundary, and a client method. In that method, `"hi"` typed with
  straight quotes and then with curly quotes is refused the second time as a
  duplicate.

Behaviour worth noting:

- `strip(c)` removes every `c` at each end, however many there are in a row.
- An empty word makes both rewriters fail at `word[0]` with an `IndexError`.
  An empty word comes from an empty quote, a leading or trailing space, or
  two spaces in a row. The model returns `Err(EmptyWord)` for it.
- In Pig Latin, a word with no vowel stays as it is.
- `"apple pie"` renders in Pig Latin as `"Appleway iepay"`, because `pie`
  starts with a consonant.
- The uwu "not modified" check runs before the length fallback. So the
  fallback can return the input itself, with the warning flag set
  (`UwuFallbackKeepsInput`). This happens when the text has no `l`/`r` and
  stuttering alone goes over 50 characters.

## Model

| member | source | states |
|---|---|---|
| PyStr.StripIsSlice | qualifier/qualifier.py:24 | `strip(c)` leaves one slice of the input; everything cut before and after it is `c`; the result neither starts nor ends with `c` |
| PyStr.Capitalize | qualifier/qualifier.py:83 | `capitalize()` keeps the length, upper-cases the first character and lower-cases every other one |
| PyStr.LowerCapitalize | qualifier/qualifier.py:83 | capitalising lower-case text and lowering it again gives the text back; the first character is upper case and the rest lower case |
| PyStr.ReplaceAll | qualifier/qualifier.py:47-50 | `replace(a, b)` for single characters keeps the length and puts `b` exactly where `a` was, leaving every other character |
| PyStr.Lower | qualifier/qualifier.py:72 | `lower()` keeps the length and lowers each character on its own |
| PyStr.CapitalizeLowered | qualifier/qualifier.py:83 | capitalising lower-case text upper-cases its first character and leaves the rest as it is |
| PyStr.Strip | qualifier/qualifier.py:24 | `strip(c)` never lengthens the text and leaves no `c` at either end |
| PyStr.Split | qualifier/qualifier.py:57 | `split(" ")` gives at least one piece and no piece holds a space |
| PyStr.SplitCount | qualifier/qualifier.py:72 | `split(" ")` gives exactly one piece more than the text has spaces |
| PyStr.Join | qualifier/qualifier.py:83 | `" ".join(ws)` starts with the first word |
| PyStr.JoinCount | qualifier/qualifier.py:54 | `" ".join(ws)` of words without spaces holds exactly one space fewer than there are words |
| PyStr.JoinSplit | qualifier/qualifier.py:54-57 | `" ".join(s.split(" "))` is `s` for every string |
| PyStr.SplitJoin | qualifier/qualifier.py:54-57 | splitting words joined with single spaces gives the same words back, when no word holds a space |
| PyStr.SplitMapChars | qualifier/qualifier.py:46-57 | a character map that keeps spaces, and only spaces, maps each word of `split(" ")` on its own and keeps the word count |
| Quotes.Normalise | qualifier/qualifier.py:24 | the normalised text is no longer than the input and never starts or ends with `”` |
| Quotes.NormaliseSteps | qualifier/qualifier.py:24 | all leading and trailing `"` are removed, then all `“`, then all `”`, each pass cutting only that character |
| Quotes.NormaliseIsSlice | qualifier/qualifier.py:24 | the normalised text is one contiguous slice of the raw input |
| Quotes.NewQuote | qualifier/qualifier.py:23-28 | construction fails with "too long" exactly when the normalised text is over 50 characters; otherwise the quote holds the normalised text and the mode, and is at most 50 characters long |
| Quotes.UwuReplace | qualifier/qualifier.py:46-51 | the chained `replace` calls map each character on its own (`L`,`R`→`W`, `l`,`r`→`w`), keep the length, leave no `l`/`r`/`L`/`R`, and change nothing exactly when the input has none |
| Quotes.StutterWord | qualifier/qualifier.py:56 | a word starting with `u`/`U` becomes first letter + `-` + word (two characters longer); any other word is unchanged |
| Quotes.StutterAll | qualifier/qualifier.py:54-58 | the comprehension keeps the word count and stutters each word on its own |
| Quotes.StutterLength | qualifier/qualifier.py:54-59 | stuttering adds exactly two characters per word that starts with `u`/`U` |
| Quotes.StutterAllUnchanged | qualifier/qualifier.py:54-59 | stuttering leaves the words unchanged exactly when none starts with `u`/`U` |
| Quotes.UwuReplaceWords | qualifier/qualifier.py:46-57 | the replacement step keeps the words, the empty words and the words that start with `u`/`U` |
| Quotes.UwuVariant | qualifier/qualifier.py:44-67 | a successful uwu rendering of a quote of at most 50 characters is at most 50 characters; a partial one is the replacement-only text |
| Quotes.UwuFull | qualifier/qualifier.py:46-59 | a full uwu rendering is the replaced words with `u`/`U` words stuttered; it has the input's word count and the input's length plus 2 per stuttered word |
| Quotes.UwuFallback | qualifier/qualifier.py:63-65 | a successful uwu rendering is partial exactly when the stuttered text would be over 50 characters, and is then the replacement-only text |
| Quotes.UwuEmptyWord | qualifier/qualifier.py:54-57 | uwu fails on `word[0]` exactly when the quote has an empty word |
| Quotes.UwuNotModified | qualifier/qualifier.py:61-62 | uwu fails with "not modified" exactly when there is no empty word, no `l`/`L`/`r`/`R` and no word starting with `u`/`U` |
| Quotes.UwuFallbackKeepsInput | qualifier/qualifier.py:61-65 | without `l`/`r`, with some `u` word, and with stuttering over 50 characters, uwu returns the input itself flagged as partial |
| Quotes.FirstVowel | qualifier/qualifier.py:76-79 | the scan finds the first index holding a vowel, or none when the word has no vowel |
| Quotes.PigWord | qualifier/qualifier.py:73-79 | a vowel-initial word gets `way`; a word whose first vowel is at `i` becomes `word[i:] + word[:i] + "ay"`; a word without a vowel is unchanged |
| Quotes.PigAll | qualifier/qualifier.py:72-81 | the per-word loop keeps the word count and rewrites each word on its own |
| Quotes.PigWordLength | qualifier/qualifier.py:73-79 | a Pig Latin word is 3, 2 or 0 characters longer (`way`, `ay`, no vowel) |
| Quotes.PigAllLength | qualifier/qualifier.py:72-83 | the joined Pig Latin words are as long as the joined input words plus what each word gains |
| Quotes.PigLatinVariant | qualifier/qualifier.py:69-88 | a successful Pig Latin rendering is at most 50 characters |
| Quotes.PigLatinWords | qualifier/qualifier.py:72-83 | lowered again, the rendering's words are the Pig Latin words of the lowered input, as many as the input has; the first character is upper case and the rest lower case |
| Quotes.PigLatinTooLong | qualifier/qualifier.py:85-86 | Pig Latin fails with "not modified" exactly when the words are non-empty and the input's length plus the growth of its words exceeds 50 |
| Quotes.PigLatinEmptyWord | qualifier/qualifier.py:72-73 | Pig Latin fails on `word[0]` exactly when the quote has an empty word |
| Quotes.DoPigLatin | qualifier/qualifier.py:69-88 | the loop over words with the breaking first-vowel scan returns exactly the Pig Latin rendering, errors included |
| Quotes.CreateVariant | qualifier/qualifier.py:33-42 | NORMAL renders the stored text unchanged and unflagged; only UWU can be partial; a quote of at most 50 characters renders to at most 50 |
| Quotes.NormalRoundTrip | qualifier/qualifier.py:37-42 | a quote built in NORMAL mode renders as the normalised input |
| QuoteExamples.PigLatinHelloWorld | qualifier/qualifier.py:69-88 | "hello world" renders in Pig Latin as "Ellohay orldway" |
| QuoteExamples.PigLatinApplePie | qualifier/qualifier.py:69-88 | "apple pie" renders in Pig Latin as "Appleway iepay" |
| QuoteExamples.UwuHelloWorld | qualifier/qualifier.py:44-67 | "hello world" renders in uwu as "hewwo wowwd" |
| QuoteExamples.UwuStutterUwu | qualifier/qualifier.py:44-67 | "uwu" renders in uwu as "u-uwu" |
| QuoteExamples.NormaliseUnquoted | qualifier/qualifier.py:24 | text with no quote character at either end is kept as it is |
| QuoteExamples.NormaliseStraightQuotes | qualifier/qualifier.py:24 | `"hi"` in straight quotes normalises to `hi` |
| QuoteExamples.NormaliseCurlyQuotes | qualifier/qualifier.py:24 | `“hi”` in curly quotes normalises to `hi` |
| QuoteExamples.LengthBoundary | qualifier/qualifier.py:27-28 | a quote of 50 characters is accepted and one of 51 is refused |
| QuoteStore.Database.constructor | qualifier/qualifier.py:121 | the store starts empty and valid |
| QuoteStore.Database.GetQuotes | qualifier/qualifier.py:123-126 | the renderings of the stored quotes, one per quote in insertion order, pairwise distinct and each at most 50 characters; reading them changes nothing |
| QuoteStore.Database.AddQuote | qualifier/qualifier.py:128-133 | takes a constructed quote, at most 50 characters long; a rendering failure is passed on and adds nothing; a rendering already listed gives `DuplicateError` and adds nothing; otherwise the quote is appended at the end; the stored quotes stay within 50 characters and their renderings pairwise distinct |

## Left out

- `run_command` (qualifier/qualifier.py:91-117). It parses commands with a regular expression, prints the list and prints the duplicate notice. This is I/O and library regex matching, not core logic.
- `warnings.warn` (qualifier/qualifier.py:65). It is modelled as the `partial` flag of `Rendered`; no warning is emitted.
- Unicode case mapping. `lower()`, `upper()` and `capitalize()` are modelled on the ASCII letters only. Non-ASCII letters keep their case in the model, and Python's title-casing of a first character beyond ASCII is not modelled.
- The `StrEnum`/`auto()` machinery of `VariantMode`. It is a three-constructor datatype.
- The class-level list `Database.quotes`. It is an instance field of a `Database` object; there is no process-wide store.
- The scratch attributes `initial_quote` and `quote_after_replace` (qualifier/qualifier.py:45, 53). They are local values of `UwuVariant`.
- Exception classes. `ValueError`, `IndexError` and `DuplicateError` are `Result` errors: `QuoteTooLong`, `NotModified`, `EmptyWord`, `RenderFailed` and `Duplicate`.
- Re-rendering. `add_quote` and `get_quotes` render every stored quote again on each call. The model uses the rendering function, which is deterministic, so each stored quote renders the same way every time.
