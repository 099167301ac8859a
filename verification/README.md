# release-drafter template engine, in Dafny

This project models `template(input, context, rules)` from release-drafter's
core package. The function turns a text with placeholder tokens into release
notes text. It runs in two phases.

1. **Placeholder substitution.** The context is an ordered mapping from keys
   such as `$MAJOR` to values. It is walked in insertion order. Every literal
   occurrence of the key in the text, as updated by the keys before it, is
   replaced by the text of the value:
   - a string stands for itself;
   - a number stands for its decimal text;
   - a nested object with a `template` field stands for that template
     resolved against the object's other fields, with no custom rules.

   Tokens that are not in the context stay as they are.
2. **Custom rules.** An ordered list of search/replace rules is applied, each
   to the whole output of the one before. A global rule replaces every
   occurrence. A rule without the global flag replaces the first one only.

Files:

- `replace.dfy`, module `Replace`: literal search and replacement, with
  JavaScript `replaceAll` and `replace` semantics.
  - `IndexOf` finds the leftmost occurrence.
  - `ReplaceFirst` rewrites the leftmost occurrence.
  - `ReplaceAll` scans left to right and never rescans text it inserted.
  - `Split` and `Join` give an independent description of global
    replacement, and `ReplaceAllIsSplitJoin` proves the two agree.
- `decimal.dfy`, module `Decimal`: the decimal text of an integer, as
  JavaScript prints an integral number of magnitude at most 2^53 inside a
  template string, and its parser. Round trips are proved both ways.
- `template.dfy`, module `Templates`: the context value, context entry and
  rule datatypes, and the engine itself: `Render`, `Substitute`,
  `ApplyRule`, `ApplyRules` and `Template`. Lemmas state how each phase
  composes and what it leaves untouched.
- `scenarios.dfy`, module `TemplateScenarios`: every case of the template
  test suite, proved about the model on the suite's own inputs.
  - Long inputs are written as concatenations of named pieces: `Body`,
    `Token(n)` for `JENKINS-<n>` and `Link(n)` for the issue link.
  - The regular-expression rules of the suite appear as literal rules, one
    per issue number in the input (`LinkRule`, `UnwrapRule`).

## Model

| member | source | states |
|---|---|---|
| Replace.IndexOf | packages/core/tests/template.test.ts:73-83 | The result is the leftmost index where the search string occurs, and it is absent exactly when the string does not occur at all. |
| Replace.ReplaceFirstRewritesLeftmost | packages/core/tests/template.test.ts:73-83 | A first-only replacement rewrites the leftmost occurrence and keeps everything before and after it. A text without the search string comes out unchanged. |
| Replace.ReplaceFirstAtFirstMatch | packages/core/tests/template.test.ts:73-83 | When the leftmost occurrence starts at index `i`, first-only replacement gives the text before `i`, then the replacement, then the text behind that occurrence. |
| Replace.ReplaceFirstWithoutOccurrence | packages/core/tests/template.test.ts:73-83 | A text without the search string comes out of first-only replacement unchanged. |
| Replace.ReplaceFirstIsIndexOfSplice | packages/core/tests/template.test.ts:73-83 | First-only replacement equals JavaScript's splice at the index `indexOf` reports, and returns the text unchanged when `indexOf` finds nothing. |
| Replace.ReplaceFirstSkipsPrefix | packages/core/tests/template.test.ts:73-83 | Text at the front where no occurrence starts is copied unchanged by a first-only replacement, which goes on behind it. |
| Replace.Split | packages/core/tests/template.test.ts:55-72 | Cutting a text at the occurrences of a nonempty key gives pieces. Joining the pieces with the key gives the text back, and no piece holds the key. Every cut is at the leftmost occurrence in the text that remains from its piece on, and there is a single piece exactly when the key does not occur. |
| Replace.SplitUnique | packages/core/tests/template.test.ts:55-72 | These properties determine the pieces: any list of pieces that joins back to the text, holds no key and is cut leftmost is the one `Split` returns. |
| Replace.ReplaceAllIsSplitJoin | packages/core/tests/template.test.ts:55-72 | Global replacement equals the pieces between occurrences joined with the replacement. So every occurrence in the leftmost non-overlapping sequence is rewritten, and nothing else is; for a key that overlaps itself, such as `aa` in `aaa`, the occurrence at index 1 stays. |
| Replace.ReplaceAllContinuesAfterFirst | packages/core/tests/template.test.ts:55-72 | Global replacement rewrites the leftmost occurrence, then resumes behind it in the original text. Text it has inserted is never searched again. |
| Replace.ReplaceAllIdentity | packages/core/tests/template.test.ts:55-72 | Replacing every occurrence of a string by itself leaves any text unchanged, including for the empty string. |
| Replace.ReplaceAllWithoutOccurrence | packages/core/tests/template.test.ts:25-37 | A text in which the key does not occur comes out of global replacement unchanged. |
| Replace.ReplaceAllSkipsPrefix | packages/core/tests/template.test.ts:99-123 | Text at the front where no occurrence starts is copied unchanged by global replacement, which goes on behind it. |
| Decimal.NatToDecimal | packages/core/tests/template.test.ts:15-23 | The decimal text of a natural number is a nonempty digit string without superfluous leading zeros. |
| Decimal.DecimalRoundTrip | packages/core/tests/template.test.ts:15-23 | Reading the printed digits of a natural number back gives the number. |
| Decimal.CanonicalRoundTrip | packages/core/tests/template.test.ts:15-23 | Printing the number that a canonical digit string denotes gives that string back, so the decimal text is unique. |
| Decimal.IntToDecimal | packages/core/tests/template.test.ts:15-23 | An integer prints as a nonempty text. It starts with `-` exactly when the integer is negative, and the rest is canonical digits. |
| Decimal.IntRoundTrip | packages/core/tests/template.test.ts:15-23 | Parsing the printed text of any integer gives the integer back. |
| Decimal.IntTextRoundTrip | packages/core/tests/template.test.ts:15-23 | Printing the integer that any valid integer text denotes gives that text back. |
| Templates.NumberRendersAsDecimal | packages/core/tests/template.test.ts:15-23 | A number in the context stands for decimal text that reads back as that number. |
| Templates.SubstituteSequential | packages/core/tests/template.test.ts:15-23 | Substituting with a context equals substituting with its first part and then with the rest, so keys take effect one after another in context order. |
| Templates.SubstituteWithoutKeys | packages/core/tests/template.test.ts:25-37 | A text in which no key of the context occurs comes out of substitution unchanged. |
| Templates.SubstituteSkipsAbsentKey | packages/core/tests/template.test.ts:25-37 | A key that does not occur in the text when its turn comes has no effect. The result is as if it were not in the context. |
| Templates.SubstituteKeepsPrefix | packages/core/tests/template.test.ts:25-37 | Text at the front that lacks the first character of every key is copied unchanged, and substitution goes on behind it. |
| Templates.SubstituteKeepsSegment | packages/core/tests/template.test.ts:25-37 | A token that disagrees with every key of the context somewhere within its length, and holds no key's first character past its first position, is kept verbatim, and substitution goes on behind it. So a placeholder missing from the context survives even though it starts with the same `$` as the keys. |
| Templates.SubstituteSingleKey | packages/core/tests/template.test.ts:9-13 | A one-key context replaces every occurrence of its key by the value's text and keeps the text between occurrences. |
| Templates.NestedResolvesAgainstSiblings | packages/core/tests/template.test.ts:39-54 | A key bound to a nested object is replaced at every occurrence by the object's template resolved against its sibling fields with no custom rules, and the text between occurrences is kept. |
| Templates.SubstituteRescansValues | packages/core/tests/template.test.ts:15-23 | Keys are applied one after another to the updated text, so a value holding a later key is rewritten by it: `$A` bound to `$B`, then `$B` bound to `x`, turns `$A` into `x`. |
| Templates.ApplyRulesSequential | packages/core/tests/template.test.ts:84-98 | Applying a rule list equals applying its first part and then the rest to that output, so each rule works on the previous rule's result. |
| Templates.ApplyTwoRules | packages/core/tests/template.test.ts:84-98 | With two rules, the second one is applied to the output of the first. |
| Templates.ApplyRulesKeepsPrefix | packages/core/tests/template.test.ts:99-123 | Text at the front that lacks the first character of every rule's search string survives all rules unchanged, and the rules go on behind it. |
| Templates.ApplyRulesWithoutMatches | packages/core/tests/template.test.ts:73-98 | Rules whose search strings do not occur in a text leave it unchanged, global or first-only. |
| Templates.TemplateKeepsPlainText | packages/core/tests/template.test.ts:25-37 | A text holding no key of the context and no search string of any rule passes through the whole engine unchanged. |
| Templates.GlobalRuleRewritesEveryOccurrence | packages/core/tests/template.test.ts:55-72 | A global rule gives the pieces between occurrences of its search string joined with its replacement. |
| Templates.FirstOnlyRuleRewritesLeftmost | packages/core/tests/template.test.ts:73-83 | A rule without the global flag rewrites the leftmost occurrence of its search string and keeps the rest. |
| TemplateScenarios.ReplacesAWithB | packages/core/tests/template.test.ts:9-13 | `$A` with context `{ $A: 'B' }` gives exactly `B`. |
| TemplateScenarios.ReplacesVersion | packages/core/tests/template.test.ts:15-23 | `$MAJOR.$MINOR.$PATCH` with the numbers 1, 0 and 0 gives exactly `1.0.0`. |
| TemplateScenarios.ReplacesChangesOnly | packages/core/tests/template.test.ts:25-37 | In the release-notes input, `$CHANGES` becomes `NO CHANGES`. `$NEXT_PATCH_VERSION`, which the context lacks, is kept verbatim, and so is everything else. |
| TemplateScenarios.ChangesOutputContains | packages/core/tests/template.test.ts:35-36 | That output contains both `v$NEXT_PATCH_VERSION` and `NO CHANGES`. |
| TemplateScenarios.NextMajorVersionRenders | packages/core/tests/template.test.ts:40-50 | The middle nested object, whose `$THIRD` field is itself a nested object, stands for `1.0.0.THIRD LEVEL`. |
| TemplateScenarios.ResolvesNestedTemplates | packages/core/tests/template.test.ts:39-54 | `$NEXT_MAJOR_VERSION`, bound to two levels of nested objects, gives exactly `1.0.0.THIRD LEVEL`. |
| TemplateScenarios.LinksEveryToken | packages/core/tests/template.test.ts:55-72 | With an empty context, a global rule rewrites each of the three `JENKINS-1234` references to its link and keeps the text around them. |
| TemplateScenarios.ReplacesWord | packages/core/tests/template.test.ts:73-83 | The rule `JENKINS` to `heyyyyyyy` turns `This is my body JENKINS-1234` into `This is my body heyyyyyyy-1234`, whether the rule is global or first-only. |
| TemplateScenarios.ReplacesOverlapping | packages/core/tests/template.test.ts:84-98 | The second rule matches text the first rule wrote, giving `This is my body something else-1234`, with either flag on both rules. |
| TemplateScenarios.ReplacesWithSeveralRules | packages/core/tests/template.test.ts:99-123 | `This is my body [JENKINS-1234] JENKINS-456` under the link rule and the bracket-unwrapping rule gives `This is my body ` followed by the two plain links, separated by a space. |

## Left out

- The implementation file `packages/core/src/template.ts` is not part of this
  model. The model has the behaviour the test suite pins down. Where the
  suite leaves a choice open, the lines below say which one the model makes.
- Regular-expression rules are left out: `\b`, `\d+`, capture groups and `$1`
  in the replacement. A rule here searches for a literal string. The suite's
  expression rules are instantiated as literal rules, one per issue number
  the input holds. For `\bJENKINS-(\d+)\b` that rule maps `JENKINS-<n>` to the
  link the replacement text makes for `<n>`.
- The pattern compiler `toRegex`, the zod transform and the jest test runner are
  left out. The suite's `expect` checks are stated as lemmas.
- JavaScript replacement patterns such as `$&`, `$$`, `` $` `` and `$'` are
  left out, both in a rule's replacement text and in the text of a context
  value. Replacements are inserted literally.
- Non-integral numbers are left out. A number value is an integer, printed
  as `-` and digits.
- `null`, `undefined`, and objects without a `template` field have no
  counterpart among the context values.
- Prefix collisions between keys (`$A` next to `$AB`) are left out. No property
  is claimed about them. The model substitutes in context order, so a shorter
  key processed first rewrites the front of a longer token.
- Templates.Substitute: a value's text is searched again by the keys that
  come later in the context, as `Templates.SubstituteRescansValues` shows.
  An implementation that scans the input once would insert it verbatim, so
  `$A` bound to `$B`, then `$B` bound to `x`, would give `$B`. No case of the
  suite has a value that holds a key.
- Decimal.IntToDecimal: prints every integer as its exact plain digits.
  JavaScript holds integers above 2^53 only approximately and prints the
  shortest digits that read back to the same number, padded with zeros, so
  `2^69` prints as `590295810358705700000`; from 10^21 on it prints exponent
  form, such as `1e+21`. Neither is modelled.
- Templates.NumberRendersAsDecimal: holds for every integer for the same
  reason; for JavaScript it is true only up to 2^53 in magnitude.
- Replace.IndexOf: counts positions in characters (Unicode scalar values).
  JavaScript counts UTF-16 code units, so after a character outside the
  Basic Multilingual Plane it reports a larger index. `Replace.ReplaceAll`
  with an empty key inserts the value once per character, while JavaScript
  also inserts it between the two halves of a surrogate pair.
- TemplateScenarios.ReplacesWithSeveralRules: the expected output is stated
  as `Body + (Link("1234") + (" " + Link("456")))`, not as one string literal.
  `Body` and `Link` spell out the suite's text piece by piece.
- TemplateScenarios.LinksEveryToken: stated with `Body`, `Token` and `Link`
  in the same way.
