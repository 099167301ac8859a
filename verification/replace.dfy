/**
  Literal search-and-replace over strings.

  A search string (a placeholder key, or the literal pattern of a custom rule)
  is matched character for character; nothing in it or in the replacement is
  interpreted. The scan is left to right and matches never overlap: after a
  match the scan resumes behind it, so a replacement text is never searched
  again by the same pass. An empty search string matches at every position,
  as it does for JavaScript's `String.prototype.replaceAll` and `replace`.
  Positions count characters; JavaScript counts UTF-16 code units, which
  differs for characters outside the Basic Multilingual Plane.
 */
module Replace {

  datatype Option<T> = None | Some(value: T)

  /** `key` occurs in `s` starting at index `i`. */
  predicate MatchAt(s: string, key: string, i: nat)
  {
    i + |key| <= |s| && s[i..i + |key|] == key
  }

  /** `key` occurs somewhere in `s`. */
  predicate Occurs(s: string, key: string)
  {
    exists i: nat :: i <= |s| && MatchAt(s, key, i)
  }

  /** The leftmost occurrence of `key` in `s` starts at index `i`. */
  predicate FirstMatch(s: string, key: string, i: nat)
  {
    MatchAt(s, key, i) && forall j: nat :: j < i ==> !MatchAt(s, key, j)
  }

  /** A match in `s[1..]` is a match in `s`, one position further on. */
  lemma MatchAtTail(s: string, key: string, i: nat)
    requires |s| > 0
    ensures MatchAt(s[1..], key, i) <==> MatchAt(s, key, i + 1)
  {
    if i + |key| <= |s[1..]| {
      assert s[1..][i..i + |key|] == s[i + 1..i + 1 + |key|];
    }
  }

  /** A string without `key` has a tail without `key`. */
  lemma NoOccurrenceInTail(s: string, key: string)
    requires |s| > 0
    ensures !Occurs(s, key) ==> !Occurs(s[1..], key)
  {
    if !Occurs(s, key) {
      forall j: nat ensures !MatchAt(s[1..], key, j) {
        MatchAtTail(s, key, j);
      }
    }
  }

  /** Slicing the tail of `s` is slicing `s` one position further on. */
  lemma SliceOfTail(s: string, j: nat, k: nat)
    requires j <= k < |s|
    ensures s[..j + 1] == [s[0]] + s[1..][..j]
    ensures s[k + 1..] == s[1..][k..]
  {
  }

  lemma ConcatAssoc(a: string, b: string, c: string)
    ensures (a + b) + c == a + (b + c)
  {
  }

  /**
    The first index at which `key` occurs in `s`, as JavaScript's `indexOf`,
    counting characters rather than UTF-16 code units.
   */
  function IndexOf(s: string, key: string): (r: Option<nat>)
    ensures r.Some? ==> FirstMatch(s, key, r.value)
    ensures r.None? <==> !Occurs(s, key)
    decreases |s|
  {
    if MatchAt(s, key, 0) then
      Some(0)
    else if |s| == 0 then None
    else
      var rest := IndexOf(s[1..], key);
      FirstMatchInTail(s, key);
      if rest.None? then None else Some(rest.value + 1)
  }

  /**
    Where `key` does not start at the front of `s`, the occurrences in `s`
    are those of `s[1..]`, one position further on.
   */
  lemma FirstMatchInTail(s: string, key: string)
    requires |s| > 0 && !MatchAt(s, key, 0)
    ensures !Occurs(s[1..], key) ==> !Occurs(s, key)
    ensures forall i: nat :: FirstMatch(s[1..], key, i) ==> FirstMatch(s, key, i + 1)
  {
    assert !MatchAt(s, key, 0);
    forall j: nat ensures MatchAt(s[1..], key, j) <==> MatchAt(s, key, j + 1) {
      MatchAtTail(s, key, j);
    }
    if !Occurs(s[1..], key) {
      forall j: nat ensures !MatchAt(s, key, j) {
        if j > 0 {
          assert !MatchAt(s[1..], key, j - 1);
        }
      }
    }
    forall i: nat | FirstMatch(s[1..], key, i) ensures FirstMatch(s, key, i + 1) {
      forall j: nat | j < i + 1 ensures !MatchAt(s, key, j) {
        if j > 0 {
          assert !MatchAt(s[1..], key, j - 1);
        }
      }
    }
  }

  /**
    Replaces the first occurrence of `key` in `s` by `value`, as JavaScript's
    `s.replace(key, value)` does for a plain-string pattern, with `value`
    inserted literally: `$&`, `$$` and the other replacement patterns are
    not interpreted.
   */
  function ReplaceFirst(s: string, key: string, value: string): string
    decreases |s|
  {
    if MatchAt(s, key, 0) then
      value + s[|key|..]
    else if |s| == 0 then
      s
    else
      [s[0]] + ReplaceFirst(s[1..], key, value)
  }

  /**
    Replaces every occurrence of `key` in `s` by `value`, as JavaScript's
    `s.replaceAll(key, value)` does for a plain-string pattern, with `value`
    inserted literally: `$&`, `$$` and the other replacement patterns are
    not interpreted.
   */
  function ReplaceAll(s: string, key: string, value: string): string
    decreases |s|
  {
    if |key| == 0 then
      if |s| == 0 then value else value + [s[0]] + ReplaceAll(s[1..], key, value)
    else if MatchAt(s, key, 0) then
      value + ReplaceAll(s[|key|..], key, value)
    else if |s| == 0 then
      s
    else
      [s[0]] + ReplaceAll(s[1..], key, value)
  }

  /** A string in which `key` does not occur is returned unchanged. */
  lemma {:induction false} ReplaceAllWithoutOccurrence(s: string, key: string, value: string)
    requires !Occurs(s, key)
    ensures ReplaceAll(s, key, value) == s
    decreases |s|
  {
    assert |key| > 0 by {
      if |key| == 0 {
        assert MatchAt(s, key, 0);
      }
    }
    if MatchAt(s, key, 0) {
    } else if |s| > 0 {
      NoOccurrenceInTail(s, key);
      ReplaceAllWithoutOccurrence(s[1..], key, value);
      assert s == [s[0]] + s[1..];
    }
  }

  /** Concatenates `parts`, putting `sep` between neighbours. */
  function Join(parts: seq<string>, sep: string): string
    requires |parts| > 0
  {
    if |parts| == 1 then parts[0] else parts[0] + sep + Join(parts[1..], sep)
  }

  lemma JoinConsHead(c: char, parts: seq<string>, sep: string)
    requires |parts| > 0
    ensures Join([[c] + parts[0]] + parts[1..], sep) == [c] + Join(parts, sep)
  {
    var ps := [[c] + parts[0]] + parts[1..];
    assert ps[1..] == parts[1..];
  }

  lemma JoinHeadIsPrefix(parts: seq<string>, sep: string)
    requires |parts| > 0
    ensures parts[0] <= Join(parts, sep)
  {
  }

  /**
    A piece without `key` that starts `s[1..]` stays without `key` when the
    first character of `s` is put in front, provided `key` does not start `s`.
   */
  lemma ExtendedPieceHasNoKey(s: string, piece: string, key: string)
    requires |s| > 0 && !MatchAt(s, key, 0)
    requires piece <= s[1..] && !Occurs(piece, key)
    ensures !Occurs([s[0]] + piece, key)
  {
    var head := [s[0]] + piece;
    assert head <= s;
    forall j: nat ensures !MatchAt(head, key, j) {
      if j > 0 {
        MatchAtTail(head, key, j - 1);
        assert head[1..] == piece;
      }
    }
  }

  /**
    Every cut between neighbouring pieces falls at the leftmost occurrence of
    `key` in the text that remains from that piece on, so the cuts are the
    leftmost non-overlapping occurrences, found left to right.
   */
  predicate CutsLeftmost(parts: seq<string>, key: string)
    requires |parts| > 0
  {
    forall i | 0 <= i < |parts| - 1 :: CutIsLeftmost(parts, key, i)
  }

  /** The cut behind piece `i` is the leftmost occurrence in the text from piece `i` on. */
  predicate CutIsLeftmost(parts: seq<string>, key: string, i: nat)
    requires i < |parts|
  {
    FirstMatch(Join(parts[i..], key), key, |parts[i]|)
  }

  /**
    The pieces of `s` between the leftmost non-overlapping occurrences of a
    non-empty `key`, as JavaScript's `s.split(key)`. Joining them with `key`
    gives `s` back, no piece contains `key`, and every cut is at the leftmost
    occurrence in the text that remains; there is no cut when `key` does not
    occur.
   */
  function Split(s: string, key: string): (parts: seq<string>)
    requires |key| > 0
    ensures |parts| > 0
    ensures Join(parts, key) == s
    ensures forall p | p in parts :: !Occurs(p, key)
    ensures |parts| == 1 <==> !Occurs(s, key)
    ensures |parts| > 1 ==> FirstMatch(s, key, |parts[0]|)
    ensures CutsLeftmost(parts, key)
    decreases |s|
  {
    if |s| == 0 then
      assert !MatchAt(s, key, 0);
      [[]]
    else if MatchAt(s, key, 0) then
      var rest := Split(s[|key|..], key);
      CutAtFront(s, key, rest);
      CutsOfTail([[]] + rest, rest, key, 1);
      [[]] + rest
    else
      var rest := Split(s[1..], key);
      ExtendFirstPiece(s, key, rest);
      CutsOfTail([[s[0]] + rest[0]] + rest[1..], rest, key, 0);
      [[s[0]] + rest[0]] + rest[1..]
  }

  /**
    Where `key` starts at the front of `s`, the pieces of `s` are an empty
    piece followed by the pieces of the text behind that occurrence.
   */
  lemma CutAtFront(s: string, key: string, rest: seq<string>)
    requires |key| > 0 && MatchAt(s, key, 0) && |rest| > 0
    requires Join(rest, key) == s[|key|..]
    requires forall p | p in rest :: !Occurs(p, key)
    ensures Join([[]] + rest, key) == s
    ensures forall p | p in [[]] + rest :: !Occurs(p, key)
    ensures Occurs(s, key) && FirstMatch(s, key, 0)
  {
    var parts: seq<string> := [[]] + rest;
    assert parts[1..] == rest;
    assert Join(parts, key) == [] + key + s[|key|..];
    assert s == key + s[|key|..];
    forall p | p in parts ensures !Occurs(p, key) {
      if p !in rest {
        assert p == [] && !MatchAt(p, key, 0);
      }
    }
  }

  /**
    Where `key` does not start at the front of `s`, the pieces of `s` are
    those of `s[1..]` with the first character of `s` put in front of the
    first piece.
   */
  lemma ExtendFirstPiece(s: string, key: string, rest: seq<string>)
    requires |key| > 0 && |s| > 0 && !MatchAt(s, key, 0) && |rest| > 0
    requires Join(rest, key) == s[1..]
    requires forall p | p in rest :: !Occurs(p, key)
    requires |rest| == 1 <==> !Occurs(s[1..], key)
    requires |rest| > 1 ==> FirstMatch(s[1..], key, |rest[0]|)
    ensures Join([[s[0]] + rest[0]] + rest[1..], key) == s
    ensures forall p | p in [[s[0]] + rest[0]] + rest[1..] :: !Occurs(p, key)
    ensures |rest| == 1 <==> !Occurs(s, key)
    ensures |rest| > 1 ==> FirstMatch(s, key, |rest[0]| + 1)
  {
    JoinConsHead(s[0], rest, key);
    JoinHeadIsPrefix(rest, key);
    ExtendedPieceHasNoKey(s, rest[0], key);
    assert forall p | p in rest[1..] :: p in rest;
    FirstMatchInTail(s, key);
    if |rest| > 1 {
      assert MatchAt(s, key, |rest[0]| + 1);
    }
  }

  /**
    Pieces that agree with `rest` behind their first one (shifted by `d`) cut
    leftmost when `rest` does and their own first cut is leftmost.
   */
  lemma CutsOfTail(parts: seq<string>, rest: seq<string>, key: string, d: nat)
    requires d <= 1 && |rest| > 0 && |parts| == |rest| + d
    requires parts[1..] == rest[1 - d..]
    requires |parts| > 1 ==> FirstMatch(Join(parts, key), key, |parts[0]|)
    requires CutsLeftmost(rest, key)
    ensures CutsLeftmost(parts, key)
  {
    forall i | 0 <= i < |parts| - 1
      ensures CutIsLeftmost(parts, key, i)
    {
      if i == 0 {
        assert parts[i..] == parts;
      } else {
        assert parts[i..] == rest[i - d..];
        assert parts[i] == rest[i - d];
        assert CutIsLeftmost(rest, key, i - d);
      }
    }
  }

  /** The cuts of the pieces behind the first one are leftmost as well. */
  lemma TailCutsLeftmost(parts: seq<string>, key: string)
    requires |parts| > 1 && CutsLeftmost(parts, key)
    ensures CutsLeftmost(parts[1..], key)
  {
    forall i | 0 <= i < |parts[1..]| - 1
      ensures CutIsLeftmost(parts[1..], key, i)
    {
      assert CutIsLeftmost(parts, key, i + 1);
      assert parts[1..][i..] == parts[i + 1..];
    }
  }

  /** The first piece and the join of the others sit on either side of the first separator. */
  lemma JoinAroundFirstCut(parts: seq<string>, sep: string)
    requires |parts| > 1
    ensures |parts[0]| + |sep| <= |Join(parts, sep)|
    ensures Join(parts, sep)[..|parts[0]|] == parts[0]
    ensures Join(parts, sep)[|parts[0]| + |sep|..] == Join(parts[1..], sep)
  {
  }

  /** The first cut of pieces that cut leftmost is the leftmost occurrence in their join. */
  lemma FirstCutOfJoin(parts: seq<string>, key: string)
    requires |parts| > 1 && CutsLeftmost(parts, key)
    ensures FirstMatch(Join(parts, key), key, |parts[0]|)
    ensures Occurs(Join(parts, key), key)
  {
    assert CutIsLeftmost(parts, key, 0);
    assert parts[0..] == parts;
    assert MatchAt(Join(parts, key), key, |parts[0]|);
  }

  /**
    Two lists of pieces of `s` that both cut at the leftmost occurrence agree
    on their first piece and on the text behind the first cut.
   */
  lemma SameFirstCut(s: string, key: string, parts: seq<string>, q: seq<string>)
    requires |parts| > 1 && |q| > 1
    requires Join(parts, key) == s && Join(q, key) == s
    requires FirstMatch(s, key, |parts[0]|) && FirstMatch(s, key, |q[0]|)
    ensures parts[0] == q[0]
    ensures Join(parts[1..], key) == Join(q[1..], key)
  {
    assert |parts[0]| == |q[0]|;
    JoinAroundFirstCut(parts, key);
    JoinAroundFirstCut(q, key);
  }

  /**
    `Split`'s contract determines its result: any pieces that join back to
    `s`, hold no `key` and are cut leftmost are the pieces `Split` returns.
   */
  lemma {:induction false} SplitUnique(s: string, key: string, parts: seq<string>)
    requires |key| > 0 && |parts| > 0
    requires Join(parts, key) == s
    requires forall p | p in parts :: !Occurs(p, key)
    requires CutsLeftmost(parts, key)
    ensures parts == Split(s, key)
    decreases |s|
  {
    var q := Split(s, key);
    if |parts| == 1 {
      assert parts[0] in parts;
    } else {
      FirstCutOfJoin(parts, key);
      SameFirstCut(s, key, parts, q);
      JoinAroundFirstCut(parts, key);
      var t := Join(parts[1..], key);
      TailCutsLeftmost(parts, key);
      TailCutsLeftmost(q, key);
      assert forall p | p in parts[1..] :: p in parts;
      assert forall p | p in q[1..] :: p in q;
      SplitUnique(t, key, parts[1..]);
      SplitUnique(t, key, q[1..]);
      SameHeadAndTail(parts, q);
    }
  }

  /** Two nonempty sequences with the same head and the same tail are equal. */
  lemma SameHeadAndTail<T>(a: seq<T>, b: seq<T>)
    requires |a| > 0 && |b| > 0 && a[0] == b[0] && a[1..] == b[1..]
    ensures a == b
  {
    assert a == [a[0]] + a[1..];
    assert b == [b[0]] + b[1..];
  }

  /**
    Global replacement is split-then-join: the result is the pieces of `s`
    between the occurrences of `key`, joined with `value`. Since the pieces
    joined with `key` give `s` back and none of them contains `key`, every
    occurrence is rewritten and the text between occurrences is kept as is.
   */
  lemma {:induction false} ReplaceAllIsSplitJoin(s: string, key: string, value: string)
    requires |key| > 0
    ensures ReplaceAll(s, key, value) == Join(Split(s, key), value)
    decreases |s|
  {
    if |s| == 0 {
    } else if MatchAt(s, key, 0) {
      var rest := Split(s[|key|..], key);
      SplitAtMatch(s, key);
      ReplaceAllIsSplitJoin(s[|key|..], key, value);
      assert ([[]] + rest)[1..] == rest;
      calc {
        Join(Split(s, key), value);
        [] + value + Join(rest, value);
        { assert [] + value == value; }
        value + ReplaceAll(s[|key|..], key, value);
      }
    } else {
      var rest := Split(s[1..], key);
      SplitStep(s, key);
      ReplaceAllIsSplitJoin(s[1..], key, value);
      JoinConsHead(s[0], rest, value);
      ReplaceAllStep(s, key, value);
    }
  }

  /** Where `key` starts the text, the first piece is empty. */
  lemma SplitAtMatch(s: string, key: string)
    requires |key| > 0 && MatchAt(s, key, 0)
    ensures Split(s, key) == [[]] + Split(s[|key|..], key)
  {
  }

  /** Where `key` does not start the text, its first character joins the first piece of the rest. */
  lemma SplitStep(s: string, key: string)
    requires |key| > 0 && |s| > 0 && !MatchAt(s, key, 0)
    ensures Split(s, key) == [[s[0]] + Split(s[1..], key)[0]] + Split(s[1..], key)[1..]
  {
  }

  /** Replacing a key by itself changes nothing. */
  lemma {:induction false} ReplaceAllIdentity(s: string, key: string)
    ensures ReplaceAll(s, key, key) == s
    decreases |s|
  {
    if |key| == 0 {
      if |s| > 0 {
        ReplaceAllIdentity(s[1..], key);
        assert s == [s[0]] + s[1..];
      }
    } else if MatchAt(s, key, 0) {
      ReplaceAllIdentity(s[|key|..], key);
      assert s == key + s[|key|..];
    } else if |s| > 0 {
      ReplaceAllIdentity(s[1..], key);
      assert s == [s[0]] + s[1..];
    }
  }

  /**
    Global and first-only replacement agree up to and including the first
    match; behind it the global one goes on with the rest of the string.
   */
  lemma {:induction false} ReplaceAllContinuesAfterFirst(s: string, key: string, value: string, i: nat)
    requires |key| > 0 && FirstMatch(s, key, i)
    ensures ReplaceAll(s, key, value) == s[..i] + value + ReplaceAll(s[i + |key|..], key, value)
    decreases i
  {
    if i == 0 {
      ReplaceAllAtFront(s, key, value);
    } else {
      FirstMatchOfTail(s, key, i);
      assert i - 1 + |key| < |s|;
      ReplaceAllContinuesAfterFirst(s[1..], key, value, i - 1);
      ReplaceAllStepPastMatch(s, key, value, i);
    }
  }

  /** An occurrence at the very front is rewritten first. */
  lemma ReplaceAllAtFront(s: string, key: string, value: string)
    requires |key| > 0 && MatchAt(s, key, 0)
    ensures ReplaceAll(s, key, value) == s[..0] + value + ReplaceAll(s[|key|..], key, value)
  {
    assert s[..0] + value == value;
  }

  /** One step of `ReplaceAllContinuesAfterFirst`: the first character goes in front. */
  lemma ReplaceAllStepPastMatch(s: string, key: string, value: string, i: nat)
    requires |key| > 0 && 0 < i && i - 1 + |key| < |s| && !MatchAt(s, key, 0)
    requires ReplaceAll(s[1..], key, value)
          == s[1..][..i - 1] + value + ReplaceAll(s[1..][i - 1 + |key|..], key, value)
    ensures ReplaceAll(s, key, value) == s[..i] + value + ReplaceAll(s[i + |key|..], key, value)
  {
    SliceOfTail(s, i - 1, i - 1 + |key|);
    var tail := ReplaceAll(s[i + |key|..], key, value);
    calc {
      ReplaceAll(s, key, value);
      { ReplaceAllStep(s, key, value); }
      [s[0]] + ReplaceAll(s[1..], key, value);
      [s[0]] + (s[1..][..i - 1] + value + tail);
      { ConcatAssoc([s[0]], s[1..][..i - 1], value);
          ConcatAssoc([s[0]], s[1..][..i - 1] + value, tail); }
      ([s[0]] + s[1..][..i - 1]) + value + tail;
      s[..i] + value + tail;
    }
  }

  /** A leftmost occurrence past the front is the leftmost occurrence of the tail. */
  lemma FirstMatchOfTail(s: string, key: string, i: nat)
    requires FirstMatch(s, key, i) && i > 0
    ensures |s| > 0 && !MatchAt(s, key, 0) && FirstMatch(s[1..], key, i - 1)
  {
    assert !MatchAt(s, key, 0);
    MatchAtTail(s, key, i - 1);
    forall j: nat | j < i - 1 ensures !MatchAt(s[1..], key, j) {
      MatchAtTail(s, key, j);
    }
  }

  /** No occurrence of `key` starts inside `a` when `a` lacks the first character of `key`. */
  lemma NoMatchWithoutFirstChar(a: string, b: string, key: string)
    requires |key| > 0 && key[0] !in a
    ensures forall i: nat :: i < |a| ==> !MatchAt(a + b, key, i)
  {
  }

  /** Text in which no occurrence of `key` starts is copied unchanged by global replacement. */
  lemma {:induction false} ReplaceAllSkipsPrefix(a: string, b: string, key: string, value: string)
    requires |key| > 0
    requires forall i: nat :: i < |a| ==> !MatchAt(a + b, key, i)
    ensures ReplaceAll(a + b, key, value) == a + ReplaceAll(b, key, value)
    decreases |a|
  {
    if |a| > 0 {
      var s := a + b;
      assert !MatchAt(s, key, 0);
      assert s[1..] == a[1..] + b;
      forall i: nat | i < |a[1..]| ensures !MatchAt(a[1..] + b, key, i) {
        MatchAtTail(s, key, i);
      }
      ReplaceAllSkipsPrefix(a[1..], b, key, value);
      var tail := ReplaceAll(b, key, value);
      assert [a[0]] + (a[1..] + tail) == ([a[0]] + a[1..]) + tail;
      assert [a[0]] + a[1..] == a;
    } else {
      assert a + b == b;
    }
  }

  /** Text in which no occurrence of `key` starts is copied unchanged by first-only replacement. */
  lemma {:induction false} ReplaceFirstSkipsPrefix(a: string, b: string, key: string, value: string)
    requires |key| > 0
    requires forall i: nat :: i < |a| ==> !MatchAt(a + b, key, i)
    ensures ReplaceFirst(a + b, key, value) == a + ReplaceFirst(b, key, value)
    decreases |a|
  {
    if |a| > 0 {
      var s := a + b;
      assert !MatchAt(s, key, 0);
      assert s[1..] == a[1..] + b;
      forall i: nat | i < |a[1..]| ensures !MatchAt(a[1..] + b, key, i) {
        MatchAtTail(s, key, i);
      }
      ReplaceFirstSkipsPrefix(a[1..], b, key, value);
      ReplaceFirstStep(s, key, value);
      var tail := ReplaceFirst(b, key, value);
      assert [a[0]] + (a[1..] + tail) == ([a[0]] + a[1..]) + tail;
      assert [a[0]] + a[1..] == a;
    } else {
      assert a + b == b;
    }
  }

  /** A string in which `key` does not occur comes out of first-only replacement unchanged. */
  lemma {:induction false} ReplaceFirstWithoutOccurrence(s: string, key: string, value: string)
    requires !Occurs(s, key)
    ensures ReplaceFirst(s, key, value) == s
    decreases |s|
  {
    assert !MatchAt(s, key, 0);
    if |s| > 0 {
      NoOccurrenceInTail(s, key);
      ReplaceFirstWithoutOccurrence(s[1..], key, value);
      assert s == [s[0]] + s[1..];
    }
  }

  /** First-only replacement rewrites the leftmost occurrence and keeps the text on both sides of it. */
  lemma {:induction false} ReplaceFirstAtFirstMatch(s: string, key: string, value: string, i: nat)
    requires FirstMatch(s, key, i)
    ensures ReplaceFirst(s, key, value) == s[..i] + value + s[i + |key|..]
    decreases i
  {
    if i == 0 {
      assert s[..i] == [];
    } else {
      FirstMatchOfTail(s, key, i);
      ReplaceFirstAtFirstMatch(s[1..], key, value, i - 1);
      SliceOfTail(s, i - 1, i - 1 + |key|);
      var tail := s[i + |key|..];
      calc {
        ReplaceFirst(s, key, value);
        [s[0]] + ReplaceFirst(s[1..], key, value);
        [s[0]] + (s[1..][..i - 1] + value + tail);
        { ConcatAssoc([s[0]], s[1..][..i - 1], value);
          ConcatAssoc([s[0]], s[1..][..i - 1] + value, tail); }
        ([s[0]] + s[1..][..i - 1]) + value + tail;
        s[..i] + value + tail;
      }
    }
  }

  /**
    First-only replacement rewrites the leftmost occurrence of `key` and
    nothing else, and leaves a string without `key` unchanged.
   */
  lemma ReplaceFirstRewritesLeftmost(s: string, key: string, value: string)
    ensures !Occurs(s, key) ==> ReplaceFirst(s, key, value) == s
    ensures forall i: nat :: FirstMatch(s, key, i) ==>
              ReplaceFirst(s, key, value) == s[..i] + value + s[i + |key|..]
  {
    if !Occurs(s, key) {
      ReplaceFirstWithoutOccurrence(s, key, value);
    }
    forall i: nat | FirstMatch(s, key, i)
      ensures ReplaceFirst(s, key, value) == s[..i] + value + s[i + |key|..]
    {
      ReplaceFirstAtFirstMatch(s, key, value, i);
    }
  }

  /**
    First-only replacement is the splice JavaScript performs: find the first
    index with `indexOf`, and put `value` in place of the `key` found there.
   */
  lemma ReplaceFirstIsIndexOfSplice(s: string, key: string, value: string)
    ensures ReplaceFirst(s, key, value)
         == match IndexOf(s, key)
            case None => s
            case Some(i) => s[..i] + value + s[i + |key|..]
  {
    ReplaceFirstRewritesLeftmost(s, key, value);
  }

  /** An occurrence at the front is rewritten and the scan resumes behind it. */
  lemma ReplaceAllAtMatch(b: string, key: string, value: string)
    requires |key| > 0
    ensures ReplaceAll(key + b, key, value) == value + ReplaceAll(b, key, value)
  {
    assert (key + b)[|key|..] == b;
  }

  /** The key itself is rewritten to the value. */
  lemma ReplaceAllOfKey(key: string, value: string)
    requires |key| > 0
    ensures ReplaceAll(key, key, value) == value
  {
    ReplaceAllAtMatch([], key, value);
    assert key + [] == key && value + [] == value;
  }

  /** A string holding `key` between two other strings holds an occurrence of `key`. */
  lemma OccursBetween(a: string, key: string, b: string)
    ensures MatchAt(a + key + b, key, |a|) && Occurs(a + key + b, key)
  {
    assert (a + key + b)[|a|..|a| + |key|] == key;
    assert MatchAt(a + key + b, key, |a|);
  }

  /** An occurrence at the front is the one first-only replacement rewrites. */
  lemma ReplaceFirstAtMatch(b: string, key: string, value: string)
    ensures ReplaceFirst(key + b, key, value) == value + b
  {
    assert MatchAt(key + b, key, 0);
    assert (key + b)[|key|..] == b;
  }

  /** A position where `key` does not start is copied by global replacement. */
  lemma ReplaceAllStep(s: string, key: string, value: string)
    requires |key| > 0 && |s| > 0 && !MatchAt(s, key, 0)
    ensures ReplaceAll(s, key, value) == [s[0]] + ReplaceAll(s[1..], key, value)
  {
  }

  /** A position where `key` does not start is copied by first-only replacement. */
  lemma ReplaceFirstStep(s: string, key: string, value: string)
    requires |s| > 0 && !MatchAt(s, key, 0)
    ensures ReplaceFirst(s, key, value) == [s[0]] + ReplaceFirst(s[1..], key, value)
  {
  }

  /**
    No occurrence of `key` starts inside `seg` when `seg` disagrees with
    `key` at some index `j` and has the first character of `key` nowhere but
    possibly at its front.
   */
  lemma NoMatchInSegment(seg: string, rest: string, key: string, j: nat)
    requires |key| > 0 && j < |key| && j < |seg| && seg[j] != key[j] && key[0] !in seg[1..]
    ensures forall i: nat :: i < |seg| ==> !MatchAt(seg + rest, key, i)
  {
    var s := seg + rest;
    forall i: nat | i < |seg| ensures !MatchAt(s, key, i) {
      if i > 0 {
        assert s[i] == seg[1..][i - 1];
      }
    }
  }

  /** Global replacement copies such a segment and goes on behind it. */
  lemma ReplaceAllSkipSegment(seg: string, rest: string, key: string, value: string, j: nat)
    requires |key| > 0 && j < |key| && j < |seg| && seg[j] != key[j] && key[0] !in seg[1..]
    ensures ReplaceAll(seg + rest, key, value) == seg + ReplaceAll(rest, key, value)
  {
    NoMatchInSegment(seg, rest, key, j);
    ReplaceAllSkipsPrefix(seg, rest, key, value);
  }

  /** First-only replacement copies such a segment and goes on behind it. */
  lemma ReplaceFirstSkipSegment(seg: string, rest: string, key: string, value: string, j: nat)
    requires |key| > 0 && j < |key| && j < |seg| && seg[j] != key[j] && key[0] !in seg[1..]
    ensures ReplaceFirst(seg + rest, key, value) == seg + ReplaceFirst(rest, key, value)
  {
    NoMatchInSegment(seg, rest, key, j);
    ReplaceFirstSkipsPrefix(seg, rest, key, value);
  }

  /** Global replacement leaves such a segment unchanged when nothing follows it. */
  lemma ReplaceAllKeepsSegment(seg: string, key: string, value: string, j: nat)
    requires |key| > 0 && j < |key| && j < |seg| && seg[j] != key[j] && key[0] !in seg[1..]
    ensures ReplaceAll(seg, key, value) == seg
  {
    ReplaceAllSkipSegment(seg, [], key, value, j);
    assert seg + [] == seg;
  }

  /** Global replacement copies a segment lacking the first character of `key` and goes on behind it. */
  lemma ReplaceAllSkipChunk(seg: string, rest: string, key: string, value: string)
    requires |key| > 0 && key[0] !in seg
    ensures ReplaceAll(seg + rest, key, value) == seg + ReplaceAll(rest, key, value)
  {
    NoMatchWithoutFirstChar(seg, rest, key);
    ReplaceAllSkipsPrefix(seg, rest, key, value);
  }

  /** First-only replacement copies a segment lacking the first character of `key` and goes on behind it. */
  lemma ReplaceFirstSkipChunk(seg: string, rest: string, key: string, value: string)
    requires |key| > 0 && key[0] !in seg
    ensures ReplaceFirst(seg + rest, key, value) == seg + ReplaceFirst(rest, key, value)
  {
    NoMatchWithoutFirstChar(seg, rest, key);
    ReplaceFirstSkipsPrefix(seg, rest, key, value);
  }

  /** A string shorter than `key` cannot hold it, so global replacement leaves it as it is. */
  lemma ReplaceAllOfShorter(s: string, key: string, value: string)
    requires |s| < |key|
    ensures ReplaceAll(s, key, value) == s
  {
    ReplaceAllWithoutOccurrence(s, key, value);
  }
}
