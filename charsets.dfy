/**
 Resolution of makeSalt's `$charset` argument into the pool of candidate
 characters (ToolBox.php, lines 26-60). The pool is a pure function of the
 argument: a string is used verbatim, an option array selects fixed category
 strings in a fixed order, anything else selects all 90 characters.
 */
module Charsets {
  import opened PhpStrings

  const LowerChars := "abcdefghijklmnopqrstuvwxyz"
  const UpperChars := "ABCDEFGHIJKLMNOPQRSTUVWXYZ"
  /** The string appended for the `alpha` key, written out separately in the source. */
  const AlphaChars := "abcdefghijklmnopqrstuvwxyzABCDEFGHIJKLMNOPQRSTUVWXYZ"
  const NumChars := "0123456789"
  const SpecialChars := "!@#$%^&*()-_=+.?"
  /** PHP's single-quoted '{}[]<>:;/\|~' keeps the backslash: twelve characters. */
  const ExtraChars := "{}[]<>:;/\\|~"
  /** The pool used when no string or array is given, written out separately in the source. */
  const AllChars := "abcdefghijklmnopqrstuvwxyzABCDEFGHIJKLMNOPQRSTUVWXYZ0123456789!@#$%^&*()-_=+.?{}[]<>:;/\\|~"

  /** The option keys that makeSalt looks at; any other key of the array is ignored. */
  const OptionKeys: set<string> := {"alpha", "lower", "upper", "num", "special", "extra"}

  /**
   The `$charset` argument. `Literal` is a PHP string; `Options` is a PHP array,
   given by the set of its keys whose value is not NULL (what `isset` tests);
   `Absent` is NULL, the default, or any other value that is neither a string
   nor an array.
   */
  datatype Charset = Literal(chars: string) | Options(keys: set<string>) | Absent

  /** `s` if `selected`, else nothing: the effect of one guarded `$chars .= s`. */
  function AppendIf(selected: bool, s: string): string
  {
    if selected then s else ""
  }

  /** The pool `$chars` that makeSalt draws from, for a given `$charset`. */
  function Pool(charset: Charset): (chars: string)
    ensures charset.Literal? ==> chars == charset.chars
    ensures charset.Absent? ==> chars == LowerChars + UpperChars + NumChars + SpecialChars + ExtraChars
    ensures charset.Absent? ==> |chars| == 90
  {
    match charset
    case Literal(s) => s
    case Options(keys) =>
      var letters :=
        if "alpha" in keys then AlphaChars
        else AppendIf("lower" in keys, LowerChars) + AppendIf("upper" in keys, UpperChars);
      letters
        + AppendIf("num" in keys, NumChars)
        + AppendIf("special" in keys, SpecialChars)
        + AppendIf("extra" in keys, ExtraChars)
    case Absent =>
      AllIsEveryCategory();
      AllChars
  }

  /** The `alpha` string is the lower-case letters followed by the upper-case ones. */
  lemma AlphaIsLowerThenUpper()
    ensures AlphaChars == LowerChars + UpperChars
  {
    assert AlphaChars[..26] == LowerChars;
    assert AlphaChars[26..] == UpperChars;
    assert AlphaChars == AlphaChars[..26] + AlphaChars[26..];
  }

  /**
   The first 62 and 78 characters of the default pool. They only serve the
   proof of AllIsEveryCategory, which extends the pool one category at a time.
   */
  const LettersDigits := "abcdefghijklmnopqrstuvwxyzABCDEFGHIJKLMNOPQRSTUVWXYZ0123456789"
  const LettersDigitsSpecial := "abcdefghijklmnopqrstuvwxyzABCDEFGHIJKLMNOPQRSTUVWXYZ0123456789!@#$%^&*()-_=+.?"

  /** The first 62 characters of the default pool are the letters, then the digits. */
  lemma LettersDigitsLayout()
    ensures LettersDigits == AlphaChars + NumChars
  {
    forall i | 0 <= i < 62
      ensures LettersDigits[i] == (AlphaChars + NumChars)[i]
    {
      if i < 52 {} else {}
    }
  }

  /** The first 78 characters of the default pool are the first 62, then the special characters. */
  lemma LettersDigitsSpecialLayout()
    ensures LettersDigitsSpecial == LettersDigits + SpecialChars
  {
    forall i | 0 <= i < 78
      ensures LettersDigitsSpecial[i] == (LettersDigits + SpecialChars)[i]
    {
      if i < 62 {} else {}
    }
  }

  /** The default pool is its first 78 characters, then the extra characters. */
  lemma AllCharsLayout()
    ensures AllChars == LettersDigitsSpecial + ExtraChars
  {
    forall i | 0 <= i < 90
      ensures AllChars[i] == (LettersDigitsSpecial + ExtraChars)[i]
    {
      if i < 78 {} else {}
    }
  }

  /** The 90-character default pool is the five categories in their fixed order. */
  lemma AllIsEveryCategory()
    ensures AllChars == LowerChars + UpperChars + NumChars + SpecialChars + ExtraChars
  {
    AllCharsLayout();
    LettersDigitsSpecialLayout();
    LettersDigitsLayout();
    AlphaIsLowerThenUpper();
  }

  /**
   An option array yields the selected categories in the fixed order lower,
   upper, num, special, extra; `alpha` selects both letter categories at once.
   */
  lemma OptionsLayout(keys: set<string>)
    ensures Pool(Options(keys)) ==
      AppendIf("alpha" in keys || "lower" in keys, LowerChars)
      + AppendIf("alpha" in keys || "upper" in keys, UpperChars)
      + AppendIf("num" in keys, NumChars)
      + AppendIf("special" in keys, SpecialChars)
      + AppendIf("extra" in keys, ExtraChars)
  {
    AlphaIsLowerThenUpper();
  }

  /** The length of an option pool is the sum of the selected categories' lengths. */
  lemma OptionsLength(keys: set<string>)
    ensures |Pool(Options(keys))| ==
      (if "alpha" in keys || "lower" in keys then 26 else 0)
      + (if "alpha" in keys || "upper" in keys then 26 else 0)
      + (if "num" in keys then 10 else 0)
      + (if "special" in keys then 16 else 0)
      + (if "extra" in keys then 12 else 0)
  {
    OptionsLayout(keys);
  }

  /** With `alpha` set, `lower` and `upper` make no difference. */
  lemma AlphaOverridesCase(keys: set<string>)
    requires "alpha" in keys
    ensures Pool(Options(keys)) == Pool(Options(keys - {"lower", "upper"}))
    ensures Pool(Options(keys)) == Pool(Options(keys + {"lower", "upper"}))
  {
    OptionsLayout(keys);
    OptionsLayout(keys - {"lower", "upper"});
    OptionsLayout(keys + {"lower", "upper"});
  }

  /** Setting `alpha` selects the same pool as setting both `lower` and `upper`. */
  lemma AlphaMeansLowerAndUpper(keys: set<string>)
    ensures Pool(Options(keys + {"alpha"})) == Pool(Options(keys - {"alpha"} + {"lower", "upper"}))
  {
    OptionsLayout(keys + {"alpha"});
    OptionsLayout(keys - {"alpha"} + {"lower", "upper"});
  }

  /** Keys other than the six option names do not change the pool. */
  lemma UnknownKeysIgnored(keys: set<string>)
    ensures Pool(Options(keys)) == Pool(Options(keys * OptionKeys))
  {
  }

  /** The default pool is the pool of an array that sets every option. */
  lemma AbsentSelectsEverything()
    ensures Pool(Absent) == Pool(Options(OptionKeys))
    ensures Pool(Absent) == Pool(Options({"lower", "upper", "num", "special", "extra"}))
  {
    OptionsLayout(OptionKeys);
    OptionsLayout({"lower", "upper", "num", "special", "extra"});
  }

  /** The `lower` category is the contiguous range 'a'..'z', each letter once. */
  lemma LowerRange()
    ensures forall c :: c in LowerChars <==> 'a' <= c <= 'z'
    ensures Distinct(LowerChars)
  {
    assert forall i :: 0 <= i < |LowerChars| ==> LowerChars[i] as int == 'a' as int + i;
    forall c | 'a' <= c <= 'z' ensures c in LowerChars {
      assert LowerChars[c as int - 'a' as int] == c;
    }
  }

  /** The `upper` category is the contiguous range 'A'..'Z', each letter once. */
  lemma UpperRange()
    ensures forall c :: c in UpperChars <==> 'A' <= c <= 'Z'
    ensures Distinct(UpperChars)
  {
    assert forall i :: 0 <= i < |UpperChars| ==> UpperChars[i] as int == 'A' as int + i;
    forall c | 'A' <= c <= 'Z' ensures c in UpperChars {
      assert UpperChars[c as int - 'A' as int] == c;
    }
  }

  /** The `num` category is the contiguous range '0'..'9', each digit once. */
  lemma NumRange()
    ensures forall c :: c in NumChars <==> '0' <= c <= '9'
    ensures Distinct(NumChars)
  {
    assert forall i :: 0 <= i < |NumChars| ==> NumChars[i] as int == '0' as int + i;
    forall c | '0' <= c <= '9' ensures c in NumChars {
      assert NumChars[c as int - '0' as int] == c;
    }
  }

  /**
   The special and extra categories repeat no character, share none with each
   other, and hold no letter or digit.
   */
  lemma PunctuationCategories()
    ensures Distinct(SpecialChars) && Distinct(ExtraChars)
    ensures forall c :: c in SpecialChars ==> c !in ExtraChars
    ensures forall c :: c in SpecialChars ==> !IsAlphanumeric(c)
    ensures forall c :: c in ExtraChars ==> !IsAlphanumeric(c)
  {
    assert forall i, j :: 0 <= i < |SpecialChars| && 0 <= j < |ExtraChars| ==> SpecialChars[i] != ExtraChars[j];
  }

  /**
   A character is in an option pool exactly when its category is selected:
   the pool holds nothing else.
   */
  lemma OptionsMembership(keys: set<string>, c: char)
    ensures c in Pool(Options(keys)) <==>
      ('a' <= c <= 'z' && ("alpha" in keys || "lower" in keys))
      || ('A' <= c <= 'Z' && ("alpha" in keys || "upper" in keys))
      || ('0' <= c <= '9' && "num" in keys)
      || (c in SpecialChars && "special" in keys)
      || (c in ExtraChars && "extra" in keys)
  {
    OptionsLayout(keys);
    LowerRange();
    UpperRange();
    NumRange();
    PunctuationCategories();
  }

  /** A character that is an ASCII letter or digit. */
  predicate IsAlphanumeric(c: char)
  {
    'a' <= c <= 'z' || 'A' <= c <= 'Z' || '0' <= c <= '9'
  }

  /**
   Five repetition-free strings drawn from the five character classes, joined
   in the order of an option pool, give a repetition-free string.
   */
  lemma ClassesJoinDistinct(lower: string, upper: string, num: string, special: string, extra: string)
    requires Distinct(lower) && Distinct(upper) && Distinct(num) && Distinct(special) && Distinct(extra)
    requires forall c :: c in lower ==> 'a' <= c <= 'z'
    requires forall c :: c in upper ==> 'A' <= c <= 'Z'
    requires forall c :: c in num ==> '0' <= c <= '9'
    requires forall c :: c in special ==> !IsAlphanumeric(c)
    requires forall c :: c in extra ==> !IsAlphanumeric(c) && c !in special
    ensures Distinct(lower + upper + num + special + extra)
  {
    DistinctAppend(lower, upper);
    DistinctAppend(lower + upper, num);
    DistinctAppend(lower + upper + num, special);
    DistinctAppend(lower + upper + num + special, extra);
  }

  /** An option pool as laid out by OptionsLayout repeats no character. */
  lemma LayoutDistinct(lower: bool, upper: bool, num: bool, special: bool, extra: bool)
    ensures Distinct(AppendIf(lower, LowerChars) + AppendIf(upper, UpperChars) + AppendIf(num, NumChars)
      + AppendIf(special, SpecialChars) + AppendIf(extra, ExtraChars))
  {
    LowerRange();
    UpperRange();
    NumRange();
    PunctuationCategories();
    ClassesJoinDistinct(AppendIf(lower, LowerChars), AppendIf(upper, UpperChars), AppendIf(num, NumChars),
      AppendIf(special, SpecialChars), AppendIf(extra, ExtraChars));
  }

  /**
   Option pools and the default pool never repeat a character, so for them
   the pool length is the number of distinct characters available.
   */
  lemma OptionsPoolDistinct(charset: Charset)
    requires !charset.Literal?
    ensures Distinct(Pool(charset))
    ensures |CharsOf(Pool(charset))| == |Pool(charset)|
  {
    var keys := if charset.Options? then charset.keys else OptionKeys;
    if charset.Absent? {
      AbsentSelectsEverything();
    }
    OptionsLayout(keys);
    LayoutDistinct("alpha" in keys || "lower" in keys, "alpha" in keys || "upper" in keys,
      "num" in keys, "special" in keys, "extra" in keys);
    DistinctCharsCount(Pool(charset));
  }

  /**
   An explicit string is not de-duplicated: "aab" is a pool of length 3 with
   only two distinct characters.
   */
  lemma LiteralMayRepeat()
    ensures |Pool(Literal("aab"))| == 3
    ensures |CharsOf(Pool(Literal("aab")))| == 2
  {
    assert CharsOf("aab") == {'a', 'b'};
  }

  /** The pool for the options `lower` and `num`. */
  lemma LowerAndNumPool()
    ensures Pool(Options({"lower", "num"})) == "abcdefghijklmnopqrstuvwxyz0123456789"
  {
  }
}
