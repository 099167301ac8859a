/**
  The behaviour pinned down by the template test suite, restated as lemmas
  about the model on the suite's own inputs.

  Long inputs are written as concatenations of the pieces they are made of
  (`Body + (Token("1234") + ...)`); the pieces spell out the suite's text.

  Custom rules that the suite writes as regular expressions with a capture
  group (`\bJENKINS-(\d+)\b` rewritten to a link that repeats the number)
  appear here as literal rules, one per number the input holds, each
  rewriting that number's token to the link the expression produces for it.
 */
module TemplateScenarios {
  import opened Replace
  import opened Decimal
  import opened Templates

  /** `Render(Num(n))` for the one-digit numbers the suite uses. */
  lemma SmallNumbers()
    ensures Render(Num(0)) == "0" && Render(Num(1)) == "1"
  {
    assert DigitChar(0) == '0' && DigitChar(1) == '1';
  }

  /** `template('$A', { $A: 'B' })` is exactly `B`. */
  lemma ReplacesAWithB()
    ensures Template("$A", [Entry("$A", Str("B"))], []) == "B"
  {
    ReplaceAllAtMatch("", "$A", "B");
    assert "$A" + "" == "$A";
  }

  // ---------------------------------------------------------------------
  // Version placeholders: `$MAJOR`, `$MINOR`, `$PATCH` (and `$THIRD`).
  // Each of them differs from the others within its first three
  // characters, so none is found inside another.
  // ---------------------------------------------------------------------

  /** `$MINOR.` holds no `$MAJOR`. */
  lemma MajorSkipsMinor(rest: string, value: string)
    ensures ReplaceAll("$MINOR." + rest, "$MAJOR", value) == "$MINOR." + ReplaceAll(rest, "$MAJOR", value)
  {
    ReplaceAllSkipSegment("$MINOR.", rest, "$MAJOR", value, 2);
  }

  /** `$PATCH.` holds neither `$MAJOR` nor `$MINOR`. */
  lemma SkipsPatch(key: string, rest: string, value: string)
    requires key == "$MAJOR" || key == "$MINOR"
    ensures ReplaceAll("$PATCH." + rest, key, value) == "$PATCH." + ReplaceAll(rest, key, value)
  {
    ReplaceAllSkipSegment("$PATCH.", rest, key, value, 1);
  }

  /** `$PATCH` on its own is kept by `$MAJOR` and `$MINOR`. */
  lemma KeepsPatch(key: string, value: string)
    requires key == "$MAJOR" || key == "$MINOR"
    ensures ReplaceAll("$PATCH", key, value) == "$PATCH"
  {
    ReplaceAllKeepsSegment("$PATCH", key, value, 1);
  }

  /** `$THIRD` is kept by the three version placeholders. */
  lemma KeepsThird(key: string, value: string)
    requires key == "$MAJOR" || key == "$MINOR" || key == "$PATCH"
    ensures ReplaceAll("$THIRD", key, value) == "$THIRD"
  {
    ReplaceAllKeepsSegment("$THIRD", key, value, 1);
  }

  /** The version context of the suite: `{ $MAJOR: 1, $MINOR: 0, $PATCH: 0 }`. */
  function VersionContext(): Context
  {
    [Entry("$MAJOR", Num(1)), Entry("$MINOR", Num(0)), Entry("$PATCH", Num(0))]
  }

  lemma VersionMajorPieces()
    ensures ReplaceAll("$MAJOR" + ("." + ("$MINOR." + "$PATCH")), "$MAJOR", "1")
         == "1" + ("." + ("$MINOR." + "$PATCH"))
  {
    ReplaceAllAtMatch("." + ("$MINOR." + "$PATCH"), "$MAJOR", "1");
    ReplaceAllSkipChunk(".", "$MINOR." + "$PATCH", "$MAJOR", "1");
    MajorSkipsMinor("$PATCH", "1");
    KeepsPatch("$MAJOR", "1");
  }

  lemma VersionMajorText()
    ensures "$MAJOR.$MINOR.$PATCH" == "$MAJOR" + ("." + ("$MINOR." + "$PATCH"))
    ensures "1.$MINOR.$PATCH" == "1" + ("." + ("$MINOR." + "$PATCH"))
  {
  }

  /** `$MAJOR` becomes `1`; the other placeholders are kept. */
  lemma VersionMajor()
    ensures ReplaceAll("$MAJOR.$MINOR.$PATCH", "$MAJOR", "1") == "1.$MINOR.$PATCH"
  {
    VersionMajorPieces();
    VersionMajorText();
  }

  lemma VersionMinorPieces()
    ensures ReplaceAll("1." + ("$MINOR" + ("." + "$PATCH")), "$MINOR", "0")
         == "1." + ("0" + ("." + "$PATCH"))
  {
    ReplaceAllSkipChunk("1.", "$MINOR" + ("." + "$PATCH"), "$MINOR", "0");
    ReplaceAllAtMatch("." + "$PATCH", "$MINOR", "0");
    ReplaceAllSkipChunk(".", "$PATCH", "$MINOR", "0");
    KeepsPatch("$MINOR", "0");
  }

  lemma VersionMinorText()
    ensures "1.$MINOR.$PATCH" == "1." + ("$MINOR" + ("." + "$PATCH"))
    ensures "1.0.$PATCH" == "1." + ("0" + ("." + "$PATCH"))
  {
  }

  /** `$MINOR` becomes `0`. */
  lemma VersionMinor()
    ensures ReplaceAll("1.$MINOR.$PATCH", "$MINOR", "0") == "1.0.$PATCH"
  {
    VersionMinorPieces();
    VersionMinorText();
  }

  /** `$PATCH` becomes `0`, completing the version. */
  lemma VersionPatch()
    ensures ReplaceAll("1.0.$PATCH", "$PATCH", "0") == "1.0.0"
  {
    ReplaceAllSkipChunk("1.0.", "$PATCH", "$PATCH", "0");
    ReplaceAllOfKey("$PATCH", "0");
    assert "1.0.$PATCH" == "1.0." + "$PATCH";
    assert "1.0.0" == "1.0." + "0";
  }

  /** `template('$MAJOR.$MINOR.$PATCH', { $MAJOR: 1, $MINOR: 0, $PATCH: 0 })` is `1.0.0`. */
  lemma ReplacesVersion()
    ensures Template("$MAJOR.$MINOR.$PATCH", VersionContext(), []) == "1.0.0"
  {
    var ctx := VersionContext();
    SmallNumbers();
    VersionMajor();
    VersionMinor();
    VersionPatch();
    assert ctx[1..][1..] == [Entry("$PATCH", Num(0))];
    calc {
      Substitute("$MAJOR.$MINOR.$PATCH", ctx);
      Substitute("1.$MINOR.$PATCH", ctx[1..]);
      Substitute("1.0.$PATCH", ctx[1..][1..]);
      Substitute("1.0.0", []);
    }
  }

  // ---------------------------------------------------------------------
  // A release-notes template with a placeholder the context lacks.
  // ---------------------------------------------------------------------

  /** The context of the release-notes case: `$CHANGES` only. */
  function ChangesContext(): Context
  {
    [Entry("$CHANGES", Str("NO CHANGES"))]
  }

  /** The heading between the version line and `$CHANGES` holds no `$`. */
  lemma ChangesSkipsHeading(rest: string)
    ensures Substitute("\n    ## CHANGES\n\n    " + rest, ChangesContext())
         == "\n    ## CHANGES\n\n    " + Substitute(rest, ChangesContext())
  {
    SubstituteKeepsPrefix("\n    ## CHANGES\n\n    ", rest, ChangesContext());
  }

  /** `$NEXT_PATCH_VERSION`, missing from the context, is kept as written. */
  lemma ChangesSkipsNextPatch(rest: string)
    ensures Substitute("$NEXT_PATCH_VERSION" + rest, ChangesContext())
         == "$NEXT_PATCH_VERSION" + Substitute(rest, ChangesContext())
  {
    var a, b := "$NEXT_", "PATCH_VERSION";
    NextTokenSkipped(b + rest);
    SubstituteKeepsPrefix(b, rest, ChangesContext());
    NextPatchParts();
    ConcatAssoc(a, b, rest);
    ConcatAssoc(a, b, Substitute(rest, ChangesContext()));
  }

  /** `$NEXT_` differs from `$CHANGES` in its second character and holds no further `$`. */
  lemma NextTokenSkipped(rest: string)
    ensures Substitute("$NEXT_" + rest, ChangesContext()) == "$NEXT_" + Substitute(rest, ChangesContext())
  {
    assert "$NEXT_"[1] != "$CHANGES"[1];
    SubstituteKeepsSegment("$NEXT_", rest, ChangesContext());
  }

  lemma NextPatchParts()
    ensures "$NEXT_PATCH_VERSION" == "$NEXT_" + "PATCH_VERSION"
  {
  }

  /**
    The suite's input `# v$NEXT_PATCH_VERSION` / `## CHANGES` / `$CHANGES`,
    each line after the first indented by four spaces.
   */
  function ChangesInput(): string
  {
    "# v" + ("$NEXT_PATCH_VERSION" + ("\n    ## CHANGES\n\n    " + ("$CHANGES" + "\n    ")))
  }

  /**
    With only `$CHANGES` in the context, `$CHANGES` is replaced and
    `$NEXT_PATCH_VERSION` is left in place as written.
   */
  lemma ReplacesChangesOnly()
    ensures Template(ChangesInput(), ChangesContext(), [])
         == "# v" + ("$NEXT_PATCH_VERSION" + ("\n    ## CHANGES\n\n    " + ("NO CHANGES" + "\n    ")))
  {
    var ctx, key, value := ChangesContext(), "$CHANGES", "NO CHANGES";
    var tail := "$CHANGES" + "\n    ";
    SubstituteKeepsPrefix("# v", "$NEXT_PATCH_VERSION" + ("\n    ## CHANGES\n\n    " + tail), ctx);
    ChangesSkipsNextPatch("\n    ## CHANGES\n\n    " + tail);
    ChangesSkipsHeading(tail);
    ReplaceAllAtMatch("\n    ", key, value);
    ReplaceAllOfShorter("\n    ", key, value);
    assert ctx[1..] == [];
    assert Substitute(tail, ctx) == "NO CHANGES" + "\n    ";
  }

  /** `v$NEXT_PATCH_VERSION` and `NO CHANGES` both occur in the output, as the suite expects. */
  lemma ChangesOutputContains()
    ensures Occurs(Template(ChangesInput(), ChangesContext(), []), "v$NEXT_PATCH_VERSION")
    ensures Occurs(Template(ChangesInput(), ChangesContext(), []), "NO CHANGES")
  {
    ReplacesChangesOnly();
    ChangesTexts();
    OccursInFiveParts("# ", "v", "$NEXT_PATCH_VERSION", "\n    ## CHANGES\n\n    ", "NO CHANGES", "\n    ");
  }

  lemma ChangesTexts()
    ensures "# v" == "# " + "v"
    ensures "v$NEXT_PATCH_VERSION" == "v" + "$NEXT_PATCH_VERSION"
  {
  }

  /** Where the pieces of a text sit: `b + c` and `e` each occur in it. */
  lemma OccursInFiveParts(a: string, b: string, c: string, d: string, e: string, f: string)
    ensures Occurs((a + b) + (c + (d + (e + f))), b + c)
    ensures Occurs((a + b) + (c + (d + (e + f))), e)
  {
    var s := (a + b) + (c + (d + (e + f)));
    assert s == a + (b + c) + (d + (e + f));
    OccursBetween(a, b + c, d + (e + f));
    assert s == (a + b + c + d) + e + f;
    OccursBetween(a + b + c + d, e, f);
  }

  // ---------------------------------------------------------------------
  // Nested objects.
  // ---------------------------------------------------------------------

  /** The innermost object `{ $NEST: 'THIRD LEVEL', template: '$NEST' }`. */
  function ThirdLevel(): Value
  {
    Nested([Entry("$NEST", Str("THIRD LEVEL"))], "$NEST")
  }

  /** The fields of the middle object besides its template: the version numbers and `$THIRD`. */
  function MiddleFields(): Context
  {
    [Entry("$MAJOR", Num(1)), Entry("$MINOR", Num(0)), Entry("$PATCH", Num(0)), Entry("$THIRD", ThirdLevel())]
  }

  /** The middle object: the fields above and `template: '$MAJOR.$MINOR.$PATCH.$THIRD'`. */
  function NextMajorVersion(): Value
  {
    Nested(MiddleFields(), "$MAJOR.$MINOR.$PATCH.$THIRD")
  }

  lemma NestedMajorPieces()
    ensures ReplaceAll("$MAJOR" + ("." + ("$MINOR." + ("$PATCH." + "$THIRD"))), "$MAJOR", "1")
         == "1" + ("." + ("$MINOR." + ("$PATCH." + "$THIRD")))
  {
    ReplaceAllAtMatch("." + ("$MINOR." + ("$PATCH." + "$THIRD")), "$MAJOR", "1");
    ReplaceAllSkipChunk(".", "$MINOR." + ("$PATCH." + "$THIRD"), "$MAJOR", "1");
    MajorSkipsMinor("$PATCH." + "$THIRD", "1");
    SkipsPatch("$MAJOR", "$THIRD", "1");
    KeepsThird("$MAJOR", "1");
  }

  lemma NestedTemplateText()
    ensures "$MAJOR.$MINOR.$PATCH.$THIRD" == "$MAJOR" + ("." + ("$MINOR." + ("$PATCH." + "$THIRD")))
  {
  }

  lemma NestedMajorText()
    ensures "1.$MINOR.$PATCH.$THIRD" == "1" + ("." + ("$MINOR." + ("$PATCH." + "$THIRD")))
  {
  }

  lemma NestedMajor()
    ensures ReplaceAll("$MAJOR.$MINOR.$PATCH.$THIRD", "$MAJOR", "1") == "1.$MINOR.$PATCH.$THIRD"
  {
    NestedMajorPieces();
    NestedTemplateText();
    NestedMajorText();
  }

  lemma NestedMinorPieces()
    ensures ReplaceAll("1." + ("$MINOR" + ("." + ("$PATCH." + "$THIRD"))), "$MINOR", "0")
         == "1." + ("0" + ("." + ("$PATCH." + "$THIRD")))
  {
    ReplaceAllSkipChunk("1.", "$MINOR" + ("." + ("$PATCH." + "$THIRD")), "$MINOR", "0");
    ReplaceAllAtMatch("." + ("$PATCH." + "$THIRD"), "$MINOR", "0");
    ReplaceAllSkipChunk(".", "$PATCH." + "$THIRD", "$MINOR", "0");
    SkipsPatch("$MINOR", "$THIRD", "0");
    KeepsThird("$MINOR", "0");
  }

  lemma NestedMinorText()
    ensures "1.$MINOR.$PATCH.$THIRD" == "1." + ("$MINOR" + ("." + ("$PATCH." + "$THIRD")))
    ensures "1.0.$PATCH.$THIRD" == "1." + ("0" + ("." + ("$PATCH." + "$THIRD")))
  {
  }

  lemma NestedMinor()
    ensures ReplaceAll("1.$MINOR.$PATCH.$THIRD", "$MINOR", "0") == "1.0.$PATCH.$THIRD"
  {
    NestedMinorPieces();
    NestedMinorText();
  }

  lemma NestedPatchPieces()
    ensures ReplaceAll("1.0." + ("$PATCH" + ("." + "$THIRD")), "$PATCH", "0")
         == "1.0." + ("0" + ("." + "$THIRD"))
  {
    ReplaceAllSkipChunk("1.0.", "$PATCH" + ("." + "$THIRD"), "$PATCH", "0");
    ReplaceAllAtMatch("." + "$THIRD", "$PATCH", "0");
    ReplaceAllSkipChunk(".", "$THIRD", "$PATCH", "0");
    KeepsThird("$PATCH", "0");
  }

  lemma NestedPatchText()
    ensures "1.0.$PATCH.$THIRD" == "1.0." + ("$PATCH" + ("." + "$THIRD"))
    ensures "1.0.0.$THIRD" == "1.0." + ("0" + ("." + "$THIRD"))
  {
  }

  lemma NestedPatch()
    ensures ReplaceAll("1.0.$PATCH.$THIRD", "$PATCH", "0") == "1.0.0.$THIRD"
  {
    NestedPatchPieces();
    NestedPatchText();
  }

  lemma NestedThirdStep()
    ensures ReplaceAll("1.0.0.$THIRD", "$THIRD", "THIRD LEVEL") == "1.0.0.THIRD LEVEL"
  {
    ReplaceAllSkipChunk("1.0.0.", "$THIRD", "$THIRD", "THIRD LEVEL");
    ReplaceAllOfKey("$THIRD", "THIRD LEVEL");
    NestedThirdText();
  }

  lemma NestedThirdText()
    ensures "1.0.0.$THIRD" == "1.0.0." + "$THIRD"
    ensures "1.0.0.THIRD LEVEL" == "1.0.0." + "THIRD LEVEL"
  {
  }

  /** The innermost object stands for `THIRD LEVEL`. */
  lemma ThirdLevelRenders()
    ensures Render(ThirdLevel()) == "THIRD LEVEL"
  {
    ReplaceAllOfKey("$NEST", "THIRD LEVEL");
  }

  /** The middle object stands for `1.0.0.THIRD LEVEL`. */
  lemma NextMajorVersionRenders()
    ensures Render(NextMajorVersion()) == "1.0.0.THIRD LEVEL"
  {
    var fields := MiddleFields();
    SmallNumbers();
    ThirdLevelRenders();
    NestedMajor();
    NestedMinor();
    NestedPatch();
    NestedThirdStep();
    assert fields[1..][1..][1..] == [Entry("$THIRD", ThirdLevel())];
    calc {
      Substitute("$MAJOR.$MINOR.$PATCH.$THIRD", fields);
      Substitute("1.$MINOR.$PATCH.$THIRD", fields[1..]);
      Substitute("1.0.$PATCH.$THIRD", fields[1..][1..]);
      Substitute("1.0.0.$THIRD", fields[1..][1..][1..]);
      Substitute("1.0.0.THIRD LEVEL", []);
    }
  }

  /**
    `$NEXT_MAJOR_VERSION`, whose value is an object with its own template
    holding a further nested object, becomes `1.0.0.THIRD LEVEL`.
   */
  lemma ResolvesNestedTemplates()
    ensures Template("$NEXT_MAJOR_VERSION", [Entry("$NEXT_MAJOR_VERSION", NextMajorVersion())], [])
         == "1.0.0.THIRD LEVEL"
  {
    NextMajorVersionRenders();
    ReplaceAllOfKey("$NEXT_MAJOR_VERSION", "1.0.0.THIRD LEVEL");
  }

  // ---------------------------------------------------------------------
  // Custom replacers on issue references.
  // ---------------------------------------------------------------------

  /** The text every custom-replacer input of the suite starts with. */
  const Body: string := "This is my body "

  /** The issue reference `JENKINS-<n>`. */
  function Token(n: string): string
  {
    "JENKINS-" + n
  }

  /** The text before the reference in the suite's links. */
  const LinkPrefix: string := "[https://issues.jenkins-ci.org/browse/"

  /** The link the suite's replacement `[https://issues.jenkins-ci.org/browse/JENKINS-$1](JENKINS-$1)` makes of `JENKINS-<n>`. */
  function Link(n: string): string
  {
    LinkPrefix + Token(n) + "](" + Token(n) + ")"
  }

  /** The global rule `\bJENKINS-(\d+)\b` to a link, for the one number `n`. */
  function LinkRule(n: string): Rule
  {
    Rule(Token(n), Link(n), true)
  }

  /** The global rule unwrapping `[<link>]` to `<link>`, for the one number `n`. */
  function UnwrapRule(n: string): Rule
  {
    Rule("[" + Link(n) + "]", Link(n), true)
  }

  /** The characters that can start a search string of the suite are not in `Body`. */
  lemma BodyLacks()
    ensures 'J' !in Body && '[' !in Body
  {
  }

  /** `Body` holds no `heyyyyyyy`, though it holds its first character. */
  lemma HeySkipsBody(rest: string, value: string, global: bool)
    ensures ApplyRule(Body + rest, Rule("heyyyyyyy", value, global))
         == Body + ApplyRule(rest, Rule("heyyyyyyy", value, global))
  {
    var a, b := "T", "his is my body ";
    if global {
      ReplaceAllSkipChunk(a, b + rest, "heyyyyyyy", value);
    } else {
      ReplaceFirstSkipChunk(a, b + rest, "heyyyyyyy", value);
    }
    HeySkipsBodyTail(rest, value, global);
    BodySplit();
    ConcatAssoc(a, b, rest);
    ConcatAssoc(a, b, ApplyRule(rest, Rule("heyyyyyyy", value, global)));
  }

  lemma HeySkipsBodyTail(rest: string, value: string, global: bool)
    ensures ApplyRule("his is my body " + rest, Rule("heyyyyyyy", value, global))
         == "his is my body " + ApplyRule(rest, Rule("heyyyyyyy", value, global))
  {
    if global {
      ReplaceAllSkipSegment("his is my body ", rest, "heyyyyyyy", value, 1);
    } else {
      ReplaceFirstSkipSegment("his is my body ", rest, "heyyyyyyy", value, 1);
    }
  }

  lemma BodySplit()
    ensures Body == "T" + "his is my body "
  {
  }

  /** A rule whose search string stands at the front of a shorter remainder rewrites just that occurrence. */
  lemma RuleAtFront(key: string, b: string, value: string, global: bool)
    requires |b| < |key|
    ensures ApplyRule(key + b, Rule(key, value, global)) == value + b
  {
    if global {
      ReplaceAllAtMatch(b, key, value);
      ReplaceAllOfShorter(b, key, value);
    } else {
      ReplaceFirstAtMatch(b, key, value);
    }
  }

  /** The three references of the single-replacer input all become links. */
  lemma LinksEveryToken()
    ensures Template(Body + (Token("1234") + (" " + (Token("1234") + (" " + Token("1234"))))), [], [LinkRule("1234")])
         == Body + (Link("1234") + (" " + (Link("1234") + (" " + Link("1234")))))
  {
    var key, link := Token("1234"), Link("1234");
    BodyLacks();
    ReplaceAllSkipChunk(Body, key + (" " + (key + (" " + key))), key, link);
    ReplaceAllAtMatch(" " + (key + (" " + key)), key, link);
    ReplaceAllSkipChunk(" ", key + (" " + key), key, link);
    ReplaceAllAtMatch(" " + key, key, link);
    ReplaceAllSkipChunk(" ", key, key, link);
    ReplaceAllOfKey(key, link);
  }

  /**
    The rule `JENKINS` to `heyyyyyyy` rewrites the word inside `JENKINS-1234`.
    The input holds one occurrence, so the result is the same whether the
    rule is global or first-only.
   */
  lemma ReplacesWord(global: bool)
    ensures Template(Body + ("JENKINS" + "-1234"), [], [Rule("JENKINS", "heyyyyyyy", global)])
         == Body + ("heyyyyyyy" + "-1234")
  {
    var r := Rule("JENKINS", "heyyyyyyy", global);
    BodyLacks();
    if global {
      ReplaceAllSkipChunk(Body, "JENKINS" + "-1234", "JENKINS", "heyyyyyyy");
    } else {
      ReplaceFirstSkipChunk(Body, "JENKINS" + "-1234", "JENKINS", "heyyyyyyy");
    }
    RuleAtFront("JENKINS", "-1234", "heyyyyyyy", global);
    var input := Body + ("JENKINS" + "-1234");
    assert [r][1..] == [];
    calc {
      Template(input, [], [r]);
      ApplyRules(input, [r]);
      ApplyRules(ApplyRule(input, r), []);
      Body + ApplyRule("JENKINS" + "-1234", r);
    }
  }

  /**
    The second rule works on the output of the first and rewrites what the
    first one wrote, with either flag on both rules.
   */
  lemma ReplacesOverlapping(global: bool)
    ensures Template(Body + ("JENKINS" + "-1234"), [],
                     [Rule("JENKINS", "heyyyyyyy", global), Rule("heyyyyyyy", "something else", global)])
         == Body + ("something else" + "-1234")
  {
    var r1, r2 := Rule("JENKINS", "heyyyyyyy", global), Rule("heyyyyyyy", "something else", global);
    BodyLacks();
    if global {
      ReplaceAllSkipChunk(Body, "JENKINS" + "-1234", "JENKINS", "heyyyyyyy");
    } else {
      ReplaceFirstSkipChunk(Body, "JENKINS" + "-1234", "JENKINS", "heyyyyyyy");
    }
    RuleAtFront("JENKINS", "-1234", "heyyyyyyy", global);
    HeySkipsBody("heyyyyyyy" + "-1234", "something else", global);
    RuleAtFront("heyyyyyyy", "-1234", "something else", global);
    ApplyTwoRules(Body + ("JENKINS" + "-1234"), r1, r2);
  }

  /** The link prefix spells `jenkins` in lower case only. */
  lemma LinkPrefixLacksJ()
    ensures 'J' !in LinkPrefix
  {
  }

  /** `JENKINS-<n>` holds no `JENKINS-<m>` when the numbers start with different digits. */
  lemma TokenSkipped(n: string, m: string, rest: string, value: string)
    requires |n| > 0 && |m| > 0 && n[0] != m[0] && 'J' !in n
    ensures ReplaceAll(Token(n) + rest, Token(m), value) == Token(n) + ReplaceAll(rest, Token(m), value)
  {
    assert Token(n)[1..] == "ENKINS-" + n;
    ReplaceAllSkipSegment(Token(n), rest, Token(m), value, 8);
  }

  /** A link is made of its prefix, the reference, `](`, the reference again and `)`. */
  lemma LinkParts(n: string, rest: string)
    ensures Link(n) + rest == LinkPrefix + (Token(n) + ("](" + (Token(n) + (")" + rest))))
  {
    var t := Token(n);
    ConcatAssoc(LinkPrefix + t + "](" + t, ")", rest);
    ConcatAssoc(LinkPrefix + t + "](", t, ")" + rest);
    ConcatAssoc(LinkPrefix + t, "](", t + (")" + rest));
    ConcatAssoc(LinkPrefix, t, "](" + (t + (")" + rest)));
  }

  /** The link for `JENKINS-<n>` holds no `JENKINS-<m>` when the numbers start with different digits. */
  lemma LinkSkipped(n: string, m: string, rest: string, value: string)
    requires |n| > 0 && |m| > 0 && n[0] != m[0] && 'J' !in n
    ensures ReplaceAll(Link(n) + rest, Token(m), value) == Link(n) + ReplaceAll(rest, Token(m), value)
  {
    var key, t := Token(m), Token(n);
    var out := ReplaceAll(rest, key, value);
    LinkParts(n, rest);
    LinkParts(n, out);
    LinkPrefixLacksJ();
    ReplaceAllSkipChunk(LinkPrefix, t + ("](" + (t + (")" + rest))), key, value);
    TokenSkipped(n, m, "](" + (t + (")" + rest)), value);
    ReplaceAllSkipChunk("](", t + (")" + rest), key, value);
    TokenSkipped(n, m, ")" + rest, value);
    ReplaceAllSkipChunk(")", rest, key, value);
  }

  /** The input of the multiple-replacer case: `This is my body [JENKINS-1234] JENKINS-456`. */
  function BracketedInput(): string
  {
    Body + ("[" + (Token("1234") + ("]" + (" " + Token("456")))))
  }

  /** First rule, number 1234: the bracketed reference becomes a link inside the brackets. */
  lemma BracketedFirstPass()
    ensures ApplyRule(BracketedInput(), LinkRule("1234"))
         == Body + ("[" + (Link("1234") + ("]" + (" " + Token("456")))))
  {
    var key, link := Token("1234"), Link("1234");
    var tail := "]" + (" " + Token("456"));
    BodyLacks();
    ReplaceAllSkipChunk(Body, "[" + (key + tail), key, link);
    ReplaceAllSkipChunk("[", key + tail, key, link);
    ReplaceAllAtMatch(tail, key, link);
    ReplaceAllSkipChunk("]", " " + Token("456"), key, link);
    ReplaceAllSkipChunk(" ", Token("456"), key, link);
    ReplaceAllOfShorter(Token("456"), key, link);
  }

  /** First rule, number 456: the plain reference becomes a link; the first link is not touched. */
  lemma BracketedSecondPass()
    ensures ApplyRule(Body + ("[" + (Link("1234") + ("]" + (" " + Token("456"))))), LinkRule("456"))
         == Body + ("[" + (Link("1234") + ("]" + (" " + Link("456")))))
  {
    var key, link := Token("456"), Link("456");
    var tail := "]" + (" " + key);
    BodyLacks();
    ReplaceAllSkipChunk(Body, "[" + (Link("1234") + tail), key, link);
    ReplaceAllSkipChunk("[", Link("1234") + tail, key, link);
    LinkSkipped("1234", "456", tail, link);
    ReplaceAllSkipChunk("]", " " + key, key, link);
    ReplaceAllSkipChunk(" ", key, key, link);
    ReplaceAllOfKey(key, link);
  }

  /** Second rule: the bracketed link loses its brackets. */
  lemma BracketedThirdPass()
    ensures ApplyRule(Body + ("[" + (Link("1234") + ("]" + (" " + Link("456"))))), UnwrapRule("1234"))
         == Body + (Link("1234") + (" " + Link("456")))
  {
    var link := Link("1234");
    var key := "[" + link + "]";
    var tail := " " + Link("456");
    ConcatAssoc("[", link, "]" + tail);
    ConcatAssoc("[" + link, "]", tail);
    BodyLacks();
    ReplaceAllSkipChunk(Body, key + tail, key, link);
    ReplaceAllAtMatch(tail, key, link);
    ReplaceAllSkipChunk(" ", Link("456"), key, link);
    ReplaceAllOfShorter(Link("456"), key, link);
  }

  /**
    `This is my body [JENKINS-1234] JENKINS-456` under the link rule and the
    unwrapping rule: both references end up as plain links.
   */
  lemma ReplacesWithSeveralRules()
    ensures Template(BracketedInput(), [], [LinkRule("1234"), LinkRule("456"), UnwrapRule("1234")])
         == Body + (Link("1234") + (" " + Link("456")))
  {
    var rules := [LinkRule("1234"), LinkRule("456"), UnwrapRule("1234")];
    BracketedFirstPass();
    BracketedSecondPass();
    BracketedThirdPass();
    assert rules[1..] == [LinkRule("456"), UnwrapRule("1234")];
    ApplyTwoRules(ApplyRule(BracketedInput(), rules[0]), LinkRule("456"), UnwrapRule("1234"));
  }
}
