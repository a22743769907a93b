# Mentions in a comment

A model of the `Comment` class of comment.rb. A comment holds a `body` string, set once when the
comment is created. Its `mentions` method lists the `@name` mentions found in the body:

1. split the body on runs of whitespace (`split(/\s+/)`);
2. keep the words whose first character is the sigil `@` (`keep_if`);
3. drop the sigil from each kept word;
4. take the first field of what is left when it is split on runs of non-word characters
   (`split(/\W+/).first`).

Step 4 gives nil when no word character follows the sigil, so each entry of the result is an
`Option<string>`.

The project has three modules:

- `RubySplit` (ruby_split.dfy) holds Ruby's ASCII classes `\s` and `\w`, and `String#split` with a
  separator pattern of one class repeated (`/\s+/`, `/\W+/`):
  - a leading empty field is kept;
  - trailing empty fields are dropped;
  - `""` splits into `[]`.

  `Split` is proved equal to an independent reference definition, `Tokens` (the maximal non-empty
  runs of non-separator characters), up to that leading empty field. Everything else is proved
  about `Tokens`.
- `Comments` (comment.dfy) holds:
  - the `Comment` datatype and its `Mentions` function;
  - the `keep_if` filter (`KeepIf`) together with the positions of the words it keeps;
  - the per-word name rule (`MentionName`);
  - lemmas for the properties the method promises.
- `CommentScenarios` (scenarios.dfy) holds the behaviour checked by the step definitions in
  features/step_defs.rb, plus the edge cases of a sigil not followed by a word character.

## Behaviour at the edges

The model follows comment.rb as written:

- A word that is the sigil alone (`@`), or the sigil followed only by non-word characters
  (`@!!`), gives a **nil** entry. It is neither dropped nor turned into `""`.
- A word whose sigil is followed by a non-word character and then word characters (`@!bob`,
  `@@bob`) gives the **empty** name `""`, not `bob`.

## Model

| member | source | states |
|---|---|---|
| RubySplit.IsSpace | comment.rb:10 | No contract of its own: Ruby's ASCII `\s` (space, tab, line feed, vertical tab, form feed, carriage return), the class `/\s+/` splits on. |
| RubySplit.IsWord | comment.rb:14 | No contract of its own: Ruby's ASCII `\w` (letters, digits, underscore); `/\W+/` splits on everything else. |
| RubySplit.Split | comment.rb:10 | No contract of its own: `String#split` on `/\s+/` (line 10) and on `/\W+/` (line 14). `SplitTokens` and `SplitFirst` state what it yields. |
| RubySplit.Tokens | comment.rb:10 | No contract of its own: the reference definition `Split` is compared with. `TokensWellFormed`, `TokensEmpty`, `TokensOfWord` and `TokensConcat` pin it down. |
| RubySplit.Span | comment.rb:10 | The leading run of non-separator characters is no longer than the string, and the character right after it (if any) is a separator. |
| RubySplit.SkipSeps | comment.rb:10 | Dropping leading separators leaves a string that is empty or starts with a non-separator, and is strictly shorter when the string started with a separator. |
| RubySplit.Fields | comment.rb:10 | There is always at least one field, and the first field is the leading run of non-separators. |
| RubySplit.DropTrailingEmpty | comment.rb:10 | The result is a prefix of the fields, it does not end in an empty field, and every field it drops is empty. |
| RubySplit.SpanSpec | comment.rb:10 | The leading run is a prefix of the string and holds no separator. With `Span`'s contract, it is the longest such prefix. |
| RubySplit.SkipSepsSpec | comment.rb:10 | `SkipSeps` removes a prefix made only of separators and leaves the rest as a suffix. |
| RubySplit.TokensWellFormed | comment.rb:10 | Every token is non-empty and holds no separator character. |
| RubySplit.TokensAvoid | comment.rb:10 | A character absent from the string is absent from every token. |
| RubySplit.TokensEmpty | comment.rb:10 | A string has no tokens if and only if it consists only of separators, including the empty string. |
| RubySplit.DropTrailingEmptyCons | comment.rb:10 | Dropping trailing empties from `[e] + xs` drops them from `xs` and keeps `e`, unless everything is empty. |
| RubySplit.SplitFromNonSep | comment.rb:10 | For a string that does not start with a separator, Ruby's split is exactly the token list. |
| RubySplit.SplitTokens | comment.rb:10 | Ruby's split equals the token list, preceded by one empty field exactly when the string starts with a separator and has a token. |
| RubySplit.SplitFirst | comment.rb:14 | The split is empty exactly when the string is all separators; otherwise its first field is the leading run of non-separators, which is empty when the string starts with a separator. |
| RubySplit.SkipSepsConcat | comment.rb:10 | Leading separators of `x + y` are those of `x`, and continue into `y` only when `x` is all separators. |
| RubySplit.SpanBeforeSep | comment.rb:10 | A leading run never crosses a separator character. |
| RubySplit.TokensSkip | comment.rb:10 | Leading separators do not change the tokens. |
| RubySplit.TokensCons | comment.rb:10 | A string that starts with a non-separator has its leading run as its first token. |
| RubySplit.TokensConcat | comment.rb:10 | Joining two strings with one separator character concatenates their token lists. |
| RubySplit.TokensConcatStep | comment.rb:10 | The same as `TokensConcat`, in the case where the first string holds a non-separator. |
| RubySplit.SkipSepsJoin | comment.rb:10 | When `a` holds a non-separator, skipping the leading separators of `a + [c] + b` stops inside `a`. |
| RubySplit.TokensJoinHead | comment.rb:10 | The first token of `t + [c] + b`, with `c` a separator, is the leading run of `t`. |
| RubySplit.TokensOfWord | comment.rb:10 | A non-empty string without separators is a single token. |
| RubySplit.TokensJoin | comment.rb:10 | Joining non-empty, whitespace-free words with spaces gives them back as tokens. |
| RubySplit.SplitJoin | comment.rb:10 | Round trip: `words.join(" ").split(/\s+/) == words` for non-empty, whitespace-free words. |
| Comments.StartsWithSigil | comment.rb:11 | No contract of its own: `word[0] == "@"`, false for the empty word, whose `word[0]` is nil. |
| Comments.First | comment.rb:14 | No contract of its own: `Array#first`, nil for the empty array. `SplitFirst` and `MentionName` state what it yields here. |
| Comments.Names | comment.rb:12-15 | No contract of its own: the `map` over the kept words. `MentionsInOrder` and `NamesAppend` state what it yields. |
| Comments.KeepIf | comment.rb:11 | `keep_if` keeps no more words than it is given, and every word it keeps starts with `@`. |
| Comments.SigilPositions | comment.rb:11 | One position per kept word, each a valid index into the input words. |
| Comments.SigilPositionsMatch | comment.rb:11 | The j-th kept word is the input word at the j-th position. |
| Comments.SigilPositionsIncrease | comment.rb:11 | The positions strictly increase, so `keep_if` preserves order. |
| Comments.SigilPositionsComplete | comment.rb:11 | Every input word that starts with `@` has its position listed, so nothing is dropped. |
| Comments.KeepIfNone | comment.rb:11 | `keep_if` keeps nothing from words none of which starts with `@`. |
| Comments.KeepIfAppend | comment.rb:11 | `keep_if` distributes over concatenation. |
| Comments.KeepIfSplit | comment.rb:10-11 | The leading empty field of the whitespace split is never kept, so `keep_if` over the split equals `keep_if` over the tokens. |
| Comments.MentionName | comment.rb:13-14 | nil if and only if no word character follows the sigil. Otherwise the name is a prefix of the word without its sigil, is made only of word characters, and is the maximal such run (it reaches the end of the word or stops before a non-word character). |
| Comments.MentionNameOfRun | comment.rb:13-14 | `@` followed by a non-empty run of word characters, then nothing or a non-word character, names exactly that run: `@dave!` names `dave`. |
| Comments.MentionNameEmpty | comment.rb:13-14 | The name is `""` if and only if a non-word character follows the sigil and a word character comes later (`@!bob`, `@@bob`). |
| Comments.NamesAppend | comment.rb:12-15 | The per-word `map` distributes over concatenation. |
| Comments.Comment.Mentions | comment.rb:8-16 | Never more entries than whitespace-delimited words in the body, and every name found has only word characters (no whitespace, `@` or punctuation). |
| Comments.MentionsInOrder | comment.rb:10-15 | Exactly one entry per `@`-word of the body. The j-th entry is the name in the j-th `@`-word. The positions of those words increase, and every `@`-word is counted. |
| Comments.NoSigilNoMentions | comment.rb:10-11 | A body without any `@` has no mentions. |
| Comments.BlankNoMentions | comment.rb:10-11 | An empty or all-whitespace body has no mentions. |
| Comments.MentionsConcat | comment.rb:8-16 | The mentions of two bodies joined by a whitespace character are the mentions of the first followed by those of the second. |
| Comments.DuplicatesKept | comment.rb:12-15 | Mentions are not deduplicated: repeating a body after a space repeats its mentions. |
| CommentScenarios.MentionsOfJoin | comment.rb:8-16 | The mentions of space-joined words are the names of the `@`-words among them, in order. |
| CommentScenarios.MentionsInclude | features/step_defs.rb:6-11 | The comment's mentions include a user name written as `@name`, optionally followed by punctuation, among space-separated words. |
| CommentScenarios.MentionsNone | comment.rb:8-16 | `"no mentions here"` mentions nobody. |
| CommentScenarios.MentionsLoneSigil | comment.rb:13-14 | `"@"` gives exactly one nil entry. |
| CommentScenarios.MentionsDoubleSigil | comment.rb:13-14 | `"@@bob"` gives exactly one empty name. |

## Left out

- The constructor and the `body` reader (comment.rb:2-6) become the `Comment` datatype and its field.
- `mentions` does not change `body`, and two calls return equal results (comment.rb:2-9). This
  holds by construction, since `Mentions` is a function of an immutable value, so no lemma states it.
- The step-definition glue in features/step_defs.rb is not modelled: the `puts` of the body, the
  scenario state in `@comment`, the splitting of the expected names on commas, and the RSpec
  matchers. Its check is stated once, generically, as `MentionsInclude`.
- Ruby's general regular-expression engine is not modelled. Only the two splits used here
  (`/\s+/` and `/\W+/`) are written out.
- The ASCII classes only. Every non-ASCII character counts as neither space nor word character.
  Ruby's errors on strings with invalid encodings are not modelled.
- Comments.Comment.Mentions: its own contract states only the length bound and the word-character
  property. Order, completeness and the one-to-one match with the `@`-words are stated in
  `Comments.MentionsInOrder`.
