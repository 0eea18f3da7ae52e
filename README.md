# ToolBox::makeSalt in Dafny

A model of `ToolBox::makeSalt($length, $strict, $charset)` from PHLAK/ToolBox. This method builds a random "salt" string from a pool of candidate characters. The model has three modules:

- `PhpStrings` (php_strings.dfy) holds the PHP string semantics the method depends on:
  - `strstr` with a one-character needle;
  - PHP's truthiness of its result, where `false`, `""` and `"0"` are falsy;
  - helpers about distinct characters.
- `Charsets` (charsets.dfy) resolves the `$charset` argument into the pool `$chars`. This is a pure function:
  - a string is used verbatim;
  - an option array appends fixed category strings in a fixed order, with `alpha` standing for both letter categories;
  - anything else selects the 90-character default pool.
- `ToolBox` (toolbox.dfy) holds the rest:
  - `Generate` is the size check and the draw loop, as a method with loop invariants.
  - `MakeSalt` is the whole call: it resolves the pool, then generates.
  - Strict mode is specified by two functions, `Picks` and `Kept`. `Picks` gives the characters that the successive `mt_rand` results select. `Kept` gives the salt that the `strstr` filter keeps from them.
  - The lemmas about `Kept` say what strict mode does and does not guarantee.

The `mt_rand` calls become the parameter `draws`: the sequence of values it returns, in order, each in `[0, strlen($chars) - 1]`. Every property holds for every such sequence.

The source keeps drawing until the salt is long enough. The model stops with `OutOfDraws(partial)` when the given draws are used up first. So a run that finishes in the source is a `Salt(salt, drawsUsed)` of the model for any long enough `draws`. The `die` in the size check becomes the result `CharsetTooSmall`.

Where the code and its documentation differ, the model follows the code:

- **A second '0' in strict mode.** The doc comment says strict mode repeats no character. The test `!strstr($salt, $char)` treats the returned tail `"0"` as false, so a '0' drawn right after the salt's only '0', when that '0' is the last character, is appended again.
  - `ZeroSlipsThrough` and `StrictRunRepeatsZero` show this: pool "01" with draws 0, 0 gives the salt "00".
  - `KeptRepeatsOnlyZero` proves that this is the only repetition possible.
- **The size check counts characters, not distinct characters.** An explicit string such as "aab" passes the check for length 3, and strict mode then never finishes (`RepeatedLiteralNeverFinishes`). For option arrays and the default pool the two counts agree (`OptionsPoolDistinct`).
- **Option arrays are read by key.** `isset($charset['lower'])` tests a key, so a list such as `array('lower', 'num')` selects nothing. The model's `Options(keys)` is the set of keys whose value is not NULL. `array('lower' => 1, 'num' => 1)` is `Options({"lower", "num"})` (`LowerAndNumPool`).
- **Length 0 or less.** The source returns NULL without drawing. The model returns `Salt("", 0)`, the empty string that NULL converts to.
- **Empty pool.** There is no separate error for an empty pool:
  - strict mode with a positive length fails the size check;
  - otherwise no value can be drawn, and the model ends in `OutOfDraws` whenever the length is positive.

## Model

| member | source | states |
|---|---|---|
| PhpStrings.Strstr | ToolBox.php:78 | `strstr` with a one-character needle finds nothing exactly when the needle does not occur in the haystack |
| PhpStrings.StrstrFindsFirst | ToolBox.php:78 | a found tail is a non-empty suffix of the haystack that starts with the needle, and the needle does not occur before it (the first occurrence) |
| PhpStrings.Truthy | ToolBox.php:78 | a `strstr` result converts to true exactly when it is a string of two or more characters or a single character other than '0'; `false`, `""` and `"0"` are false |
| PhpStrings.StrstrTruthyExactly | ToolBox.php:77-81 | the test `strstr($salt, $char)` is true exactly when the character occurs in the salt, except when it is '0' and the salt's only '0' is its last character |
| Charsets.Pool | ToolBox.php:26-60 | a string charset is the pool verbatim; the default pool (the literal of line 59) is lower + upper + num + special + extra, 90 characters |
| Charsets.AlphaIsLowerThenUpper | ToolBox.php:33-42 | the literal appended for `alpha` is the `lower` string followed by the `upper` string |
| Charsets.AllIsEveryCategory | ToolBox.php:57-60 | the default pool's literal is the five category strings lower, upper, num, special, extra, in that order |
| Charsets.OptionsLayout | ToolBox.php:28-55 | an option array's pool is the selected categories in the order lower, upper, num, special, extra; `alpha` selects both lower and upper |
| Charsets.OptionsLength | ToolBox.php:28-55 | an option pool's length is the sum of the selected categories' lengths (26, 26, 10, 16, 12) |
| Charsets.AlphaOverridesCase | ToolBox.php:33-43 | with `alpha` set, adding or removing `lower` and `upper` leaves the pool unchanged |
| Charsets.AlphaMeansLowerAndUpper | ToolBox.php:33-43 | setting `alpha` gives the same pool as setting `lower` and `upper` instead |
| Charsets.UnknownKeysIgnored | ToolBox.php:33-55 | keys other than the six option names do not change the pool |
| Charsets.AbsentSelectsEverything | ToolBox.php:57-60 | the default pool equals the pool of an array that sets every option, with or without `alpha` |
| Charsets.LowerRange | ToolBox.php:37 | the `lower` string is exactly the characters 'a' to 'z', each once |
| Charsets.UpperRange | ToolBox.php:41 | the `upper` string is exactly the characters 'A' to 'Z', each once |
| Charsets.NumRange | ToolBox.php:46 | the `num` string is exactly the digits '0' to '9', each once |
| Charsets.PunctuationCategories | ToolBox.php:49-55 | the `special` and `extra` strings repeat nothing, share nothing, and hold no letter or digit |
| Charsets.OptionsMembership | ToolBox.php:28-55 | a character is in an option pool if and only if its category is selected |
| Charsets.OptionsPoolDistinct | ToolBox.php:28-60 | option pools and the default pool repeat no character, so their length equals their number of distinct characters |
| Charsets.LiteralMayRepeat | ToolBox.php:26-27 | a string charset is not de-duplicated: "aab" is a pool of 3 characters, 2 of them distinct |
| Charsets.LowerAndNumPool | ToolBox.php:36-47 | the options `lower` and `num` give exactly "abcdefghijklmnopqrstuvwxyz0123456789" |
| ToolBox.Picks | ToolBox.php:74 | the successive `substr($chars, mt_rand(...), 1)` picks: one character per draw |
| ToolBox.PicksAt | ToolBox.php:74 | the k-th pick is the pool character at the k-th draw |
| ToolBox.PicksFromPool | ToolBox.php:74 | every pick is a character of the pool |
| ToolBox.SeenBefore | ToolBox.php:78 | the test `strstr($salt, $char)` can only hold for a character already in the salt, and always holds for one other than '0' |
| ToolBox.Kept | ToolBox.php:72-86 | the strict salt is empty exactly when nothing was picked: the first pick is always kept, since `strstr` on the empty salt is false |
| ToolBox.KeptCharacters | ToolBox.php:77-81 | strict mode's salt holds exactly the characters that were picked, and is no longer than the picks |
| ToolBox.KeptStep | ToolBox.php:77-81 | one more pick is dropped exactly when it already occurs in the strict salt, unless it is a '0' and the salt's only '0' is its last character; otherwise it is appended |
| ToolBox.AppendKeepsOnlyZeroRepeats | ToolBox.php:78-80 | appending a character the test lets through keeps the only possible repetition a doubled '0' |
| ToolBox.KeptRepeatsOnlyZero | ToolBox.php:77-81 | a strict salt repeats no character, except for one '0' immediately followed by a second '0' |
| ToolBox.KeptCount | ToolBox.php:72-86 | the strict salt has at least as many characters as there are distinct picks, and at most one more (the second '0') |
| ToolBox.RepeatRejected | ToolBox.php:77-81 | a character other than '0' picked twice in a row is kept once |
| ToolBox.ZeroSlipsThrough | ToolBox.php:77-81 | '0' picked twice in a row is kept twice, and a third '0' is rejected |
| ToolBox.StrictSaltFromPool | ToolBox.php:72-86 | a strict salt picked from a pool repeats nothing but a doubled '0', and is at most one longer than the pool's number of distinct characters |
| ToolBox.Generate | ToolBox.php:62-89 | the `die` happens exactly when strict and the pool is shorter than the length. Length ≤ 0 gives the empty salt with no draws. A salt has the requested length and only pool characters. Default mode uses one draw per character, kept as drawn. Strict mode gives `Kept` of the draws used, stops at the first draw that completes the salt, repeats nothing but a doubled '0', and needs enough distinct pool characters. Running out of draws leaves a short salt. Enough draws always finish. |
| ToolBox.MakeSalt | ToolBox.php:24-90 | the guarantees of Generate over the resolved pool: the `die` exactly when strict and the pool is shorter than the length; the requested length from pool characters; one draw per character in default mode; in strict mode `Kept` of the draws used, stopping at the first draw that completes the salt, with only a doubled '0' repeated; a short salt of all the draws when they run out; finishing with enough draws, or enough distinct picks in strict mode. For an option array or the default pool, strict mode finishes once the draws have covered the pool. |
| ToolBox.StrictRunRepeatsZero | ToolBox.php:77-81 | strict mode with pool "01" and draws 0, 0 returns "00" after two draws |
| ToolBox.RepeatedLiteralNeverFinishes | ToolBox.php:63-86 | strict mode with charset "aab" and length 3 passes the size check but ends out of draws with fewer than 3 characters, whatever the draws |

## Left out

- The distribution of `mt_rand` and its seeding. The draws are a parameter, so nothing is said about uniformity or likelihood.
- Non-termination of the draw loop. The source loops forever when strict mode cannot finish; the model returns `OutOfDraws` when the given draws end.
- The `die` ends the PHP process. The model returns `CharsetTooSmall`, and the message text is not modelled.
- PHP's loose typing:
  - `$strict == true` becomes a `bool`.
  - `$length` becomes an `int`.
  - An argument that is neither a string nor an array is `Absent`.
  - An array entry whose value is NULL is absent from `keys`, matching `isset`.
- The NULL starting values of `$chars` (line 31) and `$salt` (line 68), and the NULL return for a length of 0 or less. They are modelled as the empty string they convert to.
- `mt_rand(0, -1)` on an empty pool, which raises an error or returns false depending on the PHP version. The model allows no draw from an empty pool.
- Multi-byte characters. `strlen` and `substr` count bytes, and the model has one `char` per byte.
- index.php, a demo page that calls the class and prints HTML. It is output only.
- The relative-path and remote-address utilities of the repository are not part of this model.
- ToolBox.Generate: states `OnlyZeroRepeats` rather than the doc comment's "no character will be repeated", because the code as written lets a second '0' through.
- ToolBox.MakeSalt: states `OnlyZeroRepeats` rather than "no character will be repeated", for the same reason.
