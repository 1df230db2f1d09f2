/**
  `str2bool` of utils.py, the command-line flag parser: the lower-cased text
  must be `true` or `false`, anything else raises `ValueError`.
*/
module BoolArgs {
  import opened Wrappers
  import opened PyStr

  /** The `ValueError` raised for an unknown word; it reports the lower-cased text. */
  datatype ValueError = ValueError(got: string)

  function Str2Bool(s: string): Result<bool, ValueError> {
    var lowered := Lower(s);
    if lowered == "true" then Ok(true)
    else if lowered == "false" then Ok(false)
    else Err(ValueError(lowered))
  }

  /** ASCII upper-casing of one character. */
  function UpperChar(c: char): char {
    if 'a' <= c <= 'z' then (c as int - 32) as char else c
  }

  /** `s` spells the lower-case `word` with any mix of upper- and lower-case letters. */
  predicate SpellsIgnoringCase(s: string, word: string) {
    |s| == |word| && forall k :: 0 <= k < |s| ==> s[k] == word[k] || s[k] == UpperChar(word[k])
  }

  predicate LowerLetters(word: string) {
    forall k :: 0 <= k < |word| ==> 'a' <= word[k] <= 'z'
  }

  /** A character lower-cases to a lower-case letter exactly when it is that letter in either case. */
  lemma LowerCharTo(c: char, w: char)
    requires 'a' <= w <= 'z'
    ensures LowerChar(c) == w <==> c == w || c == UpperChar(w)
  {
  }

  lemma LowerIsWord(s: string, word: string)
    requires LowerLetters(word)
    ensures Lower(s) == word <==> SpellsIgnoringCase(s, word)
  {
    if Lower(s) == word {
      forall k | 0 <= k < |s|
        ensures s[k] == word[k] || s[k] == UpperChar(word[k])
      {
        LowerCharTo(s[k], word[k]);
      }
    }
    if SpellsIgnoringCase(s, word) {
      forall k | 0 <= k < |s|
        ensures Lower(s)[k] == word[k]
      {
        LowerCharTo(s[k], word[k]);
      }
    }
  }

  /**
    `str2bool` accepts `true` and `false` in any letter case, and nothing
    else; an unknown word is reported lower-cased.
  */
  lemma Str2BoolSpec(s: string)
    ensures Str2Bool(s) == Ok(true) <==> SpellsIgnoringCase(s, "true")
    ensures Str2Bool(s) == Ok(false) <==> SpellsIgnoringCase(s, "false")
    ensures Str2Bool(s).Err? <==> !SpellsIgnoringCase(s, "true") && !SpellsIgnoringCase(s, "false")
    ensures Str2Bool(s).Err? ==> Str2Bool(s).error.got == Lower(s)
  {
    LowerIsWord(s, "true");
    LowerIsWord(s, "false");
  }

  lemma Str2BoolExamples()
    ensures Str2Bool("TRUE") == Ok(true)
    ensures Str2Bool("fAlSe") == Ok(false)
    ensures Str2Bool("yes") == Err(ValueError("yes"))
    ensures Str2Bool("") == Err(ValueError(""))
  {
    Str2BoolSpec("TRUE");
    assert SpellsIgnoringCase("TRUE", "true");
    Str2BoolSpec("fAlSe");
    assert SpellsIgnoringCase("fAlSe", "false");
    Str2BoolSpec("yes");
    assert Lower("yes") == "yes";
    Str2BoolSpec("");
  }
}
