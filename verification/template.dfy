/**
  The template engine: `Template(input, context, rules)`.

  Phase 1 walks the context in order and replaces every occurrence of each
  key in the (progressively updated) text by the text of its value. Phase 2
  applies the custom rules in order, each to the whole output of the one
  before it.
 */
module Templates {
  import opened Replace
  import opened Decimal

  /**
    A context value: a string, an integral number, or a nested object whose
    reserved `template` field is resolved against its sibling fields.
   */
  datatype Value =
    | Str(text: string)
    | Num(n: int)
    | Nested(fields: Context, template: string)

  /** One key of a context and its value. */
  datatype Entry = Entry(key: string, value: Value)

  /** A context keeps its keys in insertion order, which is the order of substitution. */
  type Context = seq<Entry>

  /**
    A custom replacement rule with a literal search string; `global` replaces
    every occurrence, otherwise only the first one is replaced.
   */
  datatype Rule = Rule(search: string, replace: string, global: bool)

  /** The text a context value stands for. */
  function Render(v: Value): string
    decreases v
  {
    match v
    case Str(text) => text
    case Num(n) => IntToDecimal(n)
    case Nested(fields, template) => Substitute(template, fields)
  }

  /** Phase 1: each key of `ctx`, in order, is replaced everywhere by the text of its value. */
  function Substitute(s: string, ctx: Context): string
    decreases ctx
  {
    if |ctx| == 0 then s
    else Substitute(ReplaceAll(s, ctx[0].key, Render(ctx[0].value)), ctx[1..])
  }

  /** One custom rule applied to `s`. */
  function ApplyRule(s: string, rule: Rule): string
  {
    if rule.global then ReplaceAll(s, rule.search, rule.replace)
    else ReplaceFirst(s, rule.search, rule.replace)
  }

  /** Phase 2: the rules in order, each applied to the output of the previous one. */
  function ApplyRules(s: string, rules: seq<Rule>): string
    decreases |rules|
  {
    if |rules| == 0 then s
    else ApplyRules(ApplyRule(s, rules[0]), rules[1..])
  }

  /** Placeholder substitution followed by the custom rules. */
  function Template(input: string, ctx: Context, rules: seq<Rule>): string
  {
    ApplyRules(Substitute(input, ctx), rules)
  }

  /** Substituting with two contexts one after the other is substituting with their concatenation. */
  lemma {:induction false} SubstituteSequential(s: string, first: Context, second: Context)
    ensures Substitute(s, first + second) == Substitute(Substitute(s, first), second)
    decreases |first|
  {
    if |first| > 0 {
      var e := first[0];
      assert (first + second)[0] == e;
      assert (first + second)[1..] == first[1..] + second;
      SubstituteSequential(ReplaceAll(s, e.key, Render(e.value)), first[1..], second);
    } else {
      assert first + second == second;
    }
  }

  /** Text in which no key of the context occurs comes out unchanged. */
  lemma {:induction false} SubstituteWithoutKeys(s: string, ctx: Context)
    requires forall e | e in ctx :: !Occurs(s, e.key)
    ensures Substitute(s, ctx) == s
    decreases |ctx|
  {
    if |ctx| > 0 {
      ReplaceAllWithoutOccurrence(s, ctx[0].key, Render(ctx[0].value));
      assert forall e | e in ctx[1..] :: e in ctx;
      SubstituteWithoutKeys(s, ctx[1..]);
    }
  }

  /**
    A key that does not occur in the text by the time its turn comes is
    silently skipped: the result is as if it were not in the context.
   */
  lemma SubstituteSkipsAbsentKey(s: string, before: Context, e: Entry, after: Context)
    requires !Occurs(Substitute(s, before), e.key)
    ensures Substitute(s, before + [e] + after) == Substitute(s, before + after)
  {
    var mid := Substitute(s, before);
    SubstituteSequential(s, before, [e] + after);
    SubstituteSequential(s, before, after);
    assert before + [e] + after == before + ([e] + after);
    assert ([e] + after)[0] == e && ([e] + after)[1..] == after;
    ReplaceAllWithoutOccurrence(mid, e.key, Render(e.value));
  }

  /**
    Text at the front in which no key can start (it lacks every key's first
    character) is copied unchanged, and substitution goes on behind it.
   */
  lemma {:induction false} SubstituteKeepsPrefix(a: string, b: string, ctx: Context)
    requires forall e | e in ctx :: |e.key| > 0 && e.key[0] !in a
    ensures Substitute(a + b, ctx) == a + Substitute(b, ctx)
    decreases |ctx|
  {
    if |ctx| > 0 {
      var e := ctx[0];
      NoMatchWithoutFirstChar(a, b, e.key);
      ReplaceAllSkipsPrefix(a, b, e.key, Render(e.value));
      assert forall x | x in ctx[1..] :: x in ctx;
      SubstituteKeepsPrefix(a, ReplaceAll(b, e.key, Render(e.value)), ctx[1..]);
    }
  }

  /**
    A token that disagrees with every key somewhere within its length, and
    holds no key's first character past its own first position, is copied
    unchanged, and substitution goes on behind it. This is how a placeholder
    missing from the context survives, even though it starts with the same
    `$` as every key.
   */
  lemma {:induction false} SubstituteKeepsSegment(seg: string, rest: string, ctx: Context)
    requires |seg| > 0
    requires forall e | e in ctx :: |e.key| > 0 && e.key[0] !in seg[1..]
                                  && exists j: nat :: j < |e.key| && j < |seg| && seg[j] != e.key[j]
    ensures Substitute(seg + rest, ctx) == seg + Substitute(rest, ctx)
    decreases |ctx|
  {
    if |ctx| > 0 {
      var e := ctx[0];
      assert e in ctx;
      var j: nat :| j < |e.key| && j < |seg| && seg[j] != e.key[j];
      ReplaceAllSkipSegment(seg, rest, e.key, Render(e.value), j);
      assert forall x | x in ctx[1..] :: x in ctx;
      SubstituteKeepsSegment(seg, ReplaceAll(rest, e.key, Render(e.value)), ctx[1..]);
    }
  }

  /**
    A one-key context replaces every occurrence of its key by the text of its
    value and keeps the text between occurrences as it is.
   */
  lemma SubstituteSingleKey(s: string, key: string, v: Value)
    requires |key| > 0
    ensures Substitute(s, [Entry(key, v)]) == Join(Split(s, key), Render(v))
  {
    ReplaceAllIsSplitJoin(s, key, Render(v));
  }

  /**
    A key bound to a nested object is replaced at every occurrence by the
    object's own template, resolved against its sibling fields with no custom
    rules; the text between occurrences is kept.
   */
  lemma NestedResolvesAgainstSiblings(s: string, key: string, fields: Context, template: string)
    requires |key| > 0
    ensures Substitute(s, [Entry(key, Nested(fields, template))])
         == Join(Split(s, key), Template(template, fields, []))
  {
    SubstituteSingleKey(s, key, Nested(fields, template));
  }

  /**
    Substitution works key by key on the updated text, so the text of a value
    is searched by the keys that come after it: `$A` bound to `$B`, followed
    by `$B` bound to `x`, turns `$A` into `x`.
   */
  lemma SubstituteRescansValues()
    ensures Substitute("$A", [Entry("$A", Str("$B")), Entry("$B", Str("x"))]) == "x"
  {
    var ctx := [Entry("$A", Str("$B")), Entry("$B", Str("x"))];
    assert ctx[1..] == [Entry("$B", Str("x"))] && ctx[1..][1..] == [];
    ReplaceAllOfKey("$A", "$B");
    ReplaceAllOfKey("$B", "x");
  }

  /** A number stands for its decimal text, which reads back as the number. */
  lemma NumberRendersAsDecimal(n: int)
    ensures IsIntegerText(Render(Num(n)))
    ensures ParseInteger(Render(Num(n))) == n
  {
    IntRoundTrip(n);
  }

  /** Applying two rule lists one after the other is applying their concatenation. */
  lemma {:induction false} ApplyRulesSequential(s: string, first: seq<Rule>, second: seq<Rule>)
    ensures ApplyRules(s, first + second) == ApplyRules(ApplyRules(s, first), second)
    decreases |first|
  {
    if |first| > 0 {
      assert (first + second)[0] == first[0];
      assert (first + second)[1..] == first[1..] + second;
      ApplyRulesSequential(ApplyRule(s, first[0]), first[1..], second);
    } else {
      assert first + second == second;
    }
  }

  /** Two rules: the second one works on the output of the first. */
  lemma ApplyTwoRules(s: string, r1: Rule, r2: Rule)
    ensures ApplyRules(s, [r1, r2]) == ApplyRule(ApplyRule(s, r1), r2)
  {
    assert [r1, r2][1..] == [r2];
    assert [r2][1..] == [];
    calc {
      ApplyRules(s, [r1, r2]);
      ApplyRules(ApplyRule(s, r1), [r2]);
      ApplyRules(ApplyRule(ApplyRule(s, r1), r2), []);
    }
  }

  /**
    Text at the front in which no rule's search string can start is copied
    unchanged, and the rules go on behind it.
   */
  lemma {:induction false} ApplyRulesKeepsPrefix(a: string, b: string, rules: seq<Rule>)
    requires forall r | r in rules :: |r.search| > 0 && r.search[0] !in a
    ensures ApplyRules(a + b, rules) == a + ApplyRules(b, rules)
    decreases |rules|
  {
    if |rules| > 0 {
      var r := rules[0];
      NoMatchWithoutFirstChar(a, b, r.search);
      if r.global {
        ReplaceAllSkipsPrefix(a, b, r.search, r.replace);
      } else {
        ReplaceFirstSkipsPrefix(a, b, r.search, r.replace);
      }
      assert forall x | x in rules[1..] :: x in rules;
      ApplyRulesKeepsPrefix(a, ApplyRule(b, r), rules[1..]);
    }
  }

  /**
    A global rule rewrites every occurrence of its search string: the result
    is the pieces between occurrences joined with the replacement.
   */
  lemma GlobalRuleRewritesEveryOccurrence(s: string, rule: Rule)
    requires rule.global && |rule.search| > 0
    ensures ApplyRule(s, rule) == Join(Split(s, rule.search), rule.replace)
  {
    ReplaceAllIsSplitJoin(s, rule.search, rule.replace);
  }

  /** A rule without the global flag rewrites the leftmost occurrence only. */
  lemma FirstOnlyRuleRewritesLeftmost(s: string, rule: Rule, i: nat)
    requires !rule.global && FirstMatch(s, rule.search, i)
    ensures ApplyRule(s, rule) == s[..i] + rule.replace + s[i + |rule.search|..]
  {
    ReplaceFirstRewritesLeftmost(s, rule.search, rule.replace);
  }

  /** Rules whose search strings do not occur in the text leave it unchanged. */
  lemma {:induction false} ApplyRulesWithoutMatches(s: string, rules: seq<Rule>)
    requires forall r | r in rules :: !Occurs(s, r.search)
    ensures ApplyRules(s, rules) == s
    decreases |rules|
  {
    if |rules| > 0 {
      var r := rules[0];
      if r.global {
        ReplaceAllWithoutOccurrence(s, r.search, r.replace);
      } else {
        ReplaceFirstWithoutOccurrence(s, r.search, r.replace);
      }
      assert forall x | x in rules[1..] :: x in rules;
      ApplyRulesWithoutMatches(s, rules[1..]);
    }
  }

  /**
    A text that holds no key of the context and no search string of any rule
    passes through the whole engine unchanged.
   */
  lemma TemplateKeepsPlainText(s: string, ctx: Context, rules: seq<Rule>)
    requires forall e | e in ctx :: !Occurs(s, e.key)
    requires forall r | r in rules :: !Occurs(s, r.search)
    ensures Template(s, ctx, rules) == s
  {
    SubstituteWithoutKeys(s, ctx);
    ApplyRulesWithoutMatches(s, rules);
  }
}
