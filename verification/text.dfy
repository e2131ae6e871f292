/**
 * The string primitives the scraper applies to option labels and stored codes:
 * Python's `str.lower`, `str.strip`, `str.replace(" ", "_")`, `in` and `split`,
 * and the JavaScript `String.prototype.trim` run inside the page.
 */
module Text {
  import opened Seqs

  /** Python's `str.lower`, restricted to the ASCII letters. */
  function LowerChar(c: char): char
  {
    if 'A' <= c <= 'Z' then (c as int + 32) as char else c
  }

  function Lower(s: string): (r: string)
    ensures |r| == |s|
  {
    seq(|s|, i requires 0 <= i < |s| => LowerChar(s[i]))
  }

  /** Lower-casing works character by character. */
  lemma LowerAt(s: string)
    ensures forall i :: 0 <= i < |s| ==> Lower(s)[i] == LowerChar(s[i])
  {
  }

  /**
   * What lower-casing does: each capital becomes its small letter, every other
   * character stays, no capital is left, and a second pass changes nothing.
   */
  lemma LowerSpec(s: string)
    ensures forall i :: 0 <= i < |s| && 'A' <= s[i] <= 'Z' ==> Lower(s)[i] == (s[i] as int + 32) as char
    ensures forall i :: 0 <= i < |s| && !('A' <= s[i] <= 'Z') ==> Lower(s)[i] == s[i]
    ensures forall i :: 0 <= i < |s| ==> !('A' <= Lower(s)[i] <= 'Z')
    ensures Lower(Lower(s)) == Lower(s)
  {
    LowerAt(s);
    LowerAt(Lower(s));
  }

  /** The characters for which Python's `str.isspace` holds; `str.strip()` removes these. */
  predicate IsPySpace(c: char)
  {
    || '\t' <= c <= '\r'
    || '\U{1C}' <= c <= '\U{1F}'
    || c == ' ' || c == '\U{85}' || c == '\U{A0}' || c == '\U{1680}'
    || '\U{2000}' <= c <= '\U{200A}'
    || c == '\U{2028}' || c == '\U{2029}' || c == '\U{202F}' || c == '\U{205F}' || c == '\U{3000}'
  }

  /** The WhiteSpace and LineTerminator characters that JavaScript's `trim()` removes. */
  predicate IsJsSpace(c: char)
  {
    || '\t' <= c <= '\r'
    || c == ' ' || c == '\U{A0}' || c == '\U{1680}'
    || '\U{2000}' <= c <= '\U{200A}'
    || c == '\U{2028}' || c == '\U{2029}' || c == '\U{202F}' || c == '\U{205F}' || c == '\U{3000}'
    || c == '\U{FEFF}'
  }

  /** Whose notion of whitespace a trim uses. */
  datatype Whitespace = Python | JavaScript

  predicate IsSpace(ws: Whitespace, c: char)
  {
    match ws
    case Python => IsPySpace(c)
    case JavaScript => IsJsSpace(c)
  }

  /** The number of characters from position `i` on that `ws` counts as whitespace, up to the first that it does not. */
  function SpacesFrom(s: string, i: nat, ws: Whitespace): nat
    requires i <= |s|
    decreases |s| - i
  {
    if i < |s| && IsSpace(ws, s[i]) then 1 + SpacesFrom(s, i + 1, ws) else 0
  }

  /** The number of characters before position `n` that `ws` counts as whitespace, back to the last that it does not. */
  function SpacesBefore(s: string, n: nat, ws: Whitespace): nat
    requires n <= |s|
  {
    if 0 < n && IsSpace(ws, s[n - 1]) then 1 + SpacesBefore(s, n - 1, ws) else 0
  }

  lemma {:induction false} SpacesFromSpec(s: string, i: nat, ws: Whitespace)
    requires i <= |s|
    decreases |s| - i
    ensures i + SpacesFrom(s, i, ws) <= |s|
    ensures forall j :: i <= j < i + SpacesFrom(s, i, ws) ==> IsSpace(ws, s[j])
    ensures i + SpacesFrom(s, i, ws) < |s| ==> !IsSpace(ws, s[i + SpacesFrom(s, i, ws)])
  {
    if i < |s| && IsSpace(ws, s[i]) {
      SpacesFromSpec(s, i + 1, ws);
    }
  }

  lemma {:induction false} SpacesBeforeSpec(s: string, n: nat, ws: Whitespace)
    requires n <= |s|
    ensures SpacesBefore(s, n, ws) <= n
    ensures forall j :: n - SpacesBefore(s, n, ws) <= j < n ==> IsSpace(ws, s[j])
    ensures SpacesBefore(s, n, ws) < n ==> !IsSpace(ws, s[n - SpacesBefore(s, n, ws) - 1])
  {
    if 0 < n && IsSpace(ws, s[n - 1]) {
      SpacesBeforeSpec(s, n - 1, ws);
    }
  }

  /** The bounds `(a, b)` of the slice `s[a..b]` that trimming keeps. */
  function TrimBounds(s: string, ws: Whitespace): (nat, nat)
  {
    var a := SpacesFrom(s, 0, ws);
    var t := SpacesBefore(s, |s|, ws);
    if a >= |s| || t >= |s| - a then (|s|, |s|) else (a, |s| - t)
  }

  /**
   * Trimming keeps one slice of the input: everything cut from either end is
   * whitespace, and what is kept neither starts nor ends with whitespace.
   */
  lemma TrimBoundsSpec(s: string, ws: Whitespace)
    ensures TrimBounds(s, ws).0 <= TrimBounds(s, ws).1 <= |s|
    ensures forall j :: 0 <= j < TrimBounds(s, ws).0 ==> IsSpace(ws, s[j])
    ensures forall j :: TrimBounds(s, ws).1 <= j < |s| ==> IsSpace(ws, s[j])
    ensures TrimBounds(s, ws).0 < TrimBounds(s, ws).1 ==>
      !IsSpace(ws, s[TrimBounds(s, ws).0]) && !IsSpace(ws, s[TrimBounds(s, ws).1 - 1])
  {
    SpacesFromSpec(s, 0, ws);
    SpacesBeforeSpec(s, |s|, ws);
    var a := SpacesFrom(s, 0, ws);
    var t := SpacesBefore(s, |s|, ws);
    if a < |s| {
      assert !IsSpace(ws, s[a]);
      assert t < |s| - a;
    }
  }

  /** Removes the leading and trailing characters that `ws` counts as whitespace. */
  function Trim(s: string, ws: Whitespace): string
  {
    var ab := TrimBounds(s, ws);
    if ab.0 <= ab.1 <= |s| then s[ab.0..ab.1] else s
  }

  /**
   * An internal bridge from `Trim` to its bounds, used where a proof needs the
   * positions; what trimming means is stated by `TrimSpec` and `TrimUnique`.
   */
  lemma TrimIsSlice(s: string, ws: Whitespace)
    ensures TrimBounds(s, ws).0 <= TrimBounds(s, ws).1 <= |s|
    ensures Trim(s, ws) == s[TrimBounds(s, ws).0..TrimBounds(s, ws).1]
  {
    TrimBoundsSpec(s, ws);
  }

  /** Every character of `t` is whitespace under `ws`. */
  predicate AllSpace(ws: Whitespace, t: string)
  {
    forall j :: 0 <= j < |t| ==> IsSpace(ws, t[j])
  }

  /** No whitespace at either end of `t`. */
  predicate Unpadded(ws: Whitespace, t: string)
  {
    t != [] ==> !IsSpace(ws, t[0]) && !IsSpace(ws, t[|t| - 1])
  }

  /**
   * What trimming means: the input is some whitespace, then the result, then
   * some whitespace, and the result neither starts nor ends with whitespace.
   */
  lemma TrimSpec(s: string, ws: Whitespace)
    ensures Unpadded(ws, Trim(s, ws))
    ensures exists a :: (0 <= a <= |s| - |Trim(s, ws)|
      && s == s[..a] + Trim(s, ws) + s[a + |Trim(s, ws)|..]
      && AllSpace(ws, s[..a]) && AllSpace(ws, s[a + |Trim(s, ws)|..]))
  {
    TrimBoundsSpec(s, ws);
    var (a, b) := TrimBounds(s, ws);
    var r := Trim(s, ws);
    assert r == s[a..b] && b == a + |r|;
    assert AllSpace(ws, s[..a]) && AllSpace(ws, s[b..]);
    assert s == s[..a] + r + s[b..];
  }

  /**
   * The decomposition of `TrimSpec` is unique: whenever `s` is whitespace,
   * then an unpadded `t`, then whitespace, `t` is what trimming keeps.
   */
  lemma TrimUnique(s: string, ws: Whitespace, p: string, t: string, q: string)
    requires s == p + t + q && AllSpace(ws, p) && AllSpace(ws, q) && Unpadded(ws, t)
    ensures Trim(s, ws) == t
  {
    TrimBoundsSpec(s, ws);
    var (a, b) := TrimBounds(s, ws);
    var e := |p| + |t|;
    forall j | 0 <= j < |s| && (j < |p| || e <= j) ensures IsSpace(ws, s[j]) {
      if j < |p| { assert s[j] == p[j]; } else { assert s[j] == q[j - e]; }
    }
    if t == [] {
      assert a == b;
    } else {
      assert s[|p|] == t[0] && s[e - 1] == t[|t| - 1];
      assert a == |p| && b == e;
      assert s[|p|..e] == t;
    }
  }

  /** Python's `str.strip()` with no argument. */
  function PyStrip(s: string): string
  {
    Trim(s, Python)
  }

  /** JavaScript's `String.prototype.trim()`. */
  function JsTrim(s: string): string
  {
    Trim(s, JavaScript)
  }

  /** Python's `s.replace(" ", "_")`. */
  function SpacesToUnderscores(s: string): (r: string)
    ensures |r| == |s|
  {
    if s == [] then [] else [if s[0] == ' ' then '_' else s[0]] + SpacesToUnderscores(s[1..])
  }

  /** Each space becomes an underscore and every other character stays. */
  lemma {:induction false} SpacesToUnderscoresSpec(s: string)
    ensures forall i :: 0 <= i < |s| ==> SpacesToUnderscores(s)[i] == if s[i] == ' ' then '_' else s[i]
  {
    if s != [] {
      SpacesToUnderscoresSpec(s[1..]);
    }
  }

  /** `w` occurs in `s` starting at position `i`. */
  predicate OccursAt(s: string, w: string, i: int)
  {
    0 <= i && i + |w| <= |s| && s[i..i + |w|] == w
  }

  /** Python's substring test `w in s`, scanning `s` from the left. */
  predicate Contains(s: string, w: string)
  {
    |w| <= |s| && (s[..|w|] == w || Contains(s[1..], w))
  }

  /** `w in s` holds exactly when `w` occurs at some position of `s`. */
  lemma {:induction false} ContainsSpec(s: string, w: string)
    ensures Contains(s, w) <==> exists i | 0 <= i <= |s| - |w| :: OccursAt(s, w, i)
  {
    if |w| <= |s| {
      if s[..|w|] == w {
        assert OccursAt(s, w, 0);
        return;
      }
      ContainsSpec(s[1..], w);
      if Contains(s[1..], w) {
        var i :| 0 <= i <= |s[1..]| - |w| && OccursAt(s[1..], w, i);
        assert s[1..][i..i + |w|] == s[i + 1..i + 1 + |w|];
        assert OccursAt(s, w, i + 1);
      } else {
        forall i | 0 <= i <= |s| - |w| ensures !OccursAt(s, w, i) {
          if i > 0 {
            assert s[1..][i - 1..i - 1 + |w|] == s[i..i + |w|];
            assert !OccursAt(s[1..], w, i - 1);
          }
        }
      }
    }
  }

  /** A substring of a substring is a substring. */
  lemma ContainsTransitive(s: string, v: string, w: string)
    requires Contains(s, v) && Contains(v, w)
    ensures Contains(s, w)
  {
    ContainsSpec(s, v);
    ContainsSpec(v, w);
    ContainsSpec(s, w);
    var i :| 0 <= i <= |s| - |v| && OccursAt(s, v, i);
    var k :| 0 <= k <= |v| - |w| && OccursAt(v, w, k);
    forall j | 0 <= j < |w| ensures s[i + k + j] == w[j] {
      assert s[i + k + j] == s[i..i + |v|][k + j] == v[k + j] == v[k..k + |w|][j];
    }
    assert s[i + k..i + k + |w|] == w;
    assert OccursAt(s, w, i + k);
  }

  /** An occurrence inside the slice `s[a..b]` is an occurrence in `s`, shifted by `a`. */
  lemma OccursInSlice(s: string, a: nat, b: nat, w: string, i: nat)
    requires a <= b <= |s| && a + i + |w| <= b
    ensures OccursAt(s[a..b], w, i) <==> OccursAt(s, w, a + i)
  {
    var l, r := s[a..b][i..i + |w|], s[a + i..a + i + |w|];
    forall k | 0 <= k < |w| ensures l[k] == r[k] {
      assert l[k] == s[a + i + k];
    }
    assert l == r;
  }

  /**
   * Cutting off ends that hold none of the characters of a non-empty `w` does not
   * change whether `w` occurs.
   */
  lemma ContainsInSlice(s: string, a: nat, b: nat, w: string)
    requires a <= b <= |s| && |w| > 0
    requires forall j :: 0 <= j < a ==> s[j] !in w
    requires forall j :: b <= j < |s| ==> s[j] !in w
    ensures Contains(s[a..b], w) <==> Contains(s, w)
  {
    ContainsSpec(s, w);
    ContainsSpec(s[a..b], w);
    if Contains(s, w) {
      var i :| 0 <= i <= |s| - |w| && OccursAt(s, w, i);
      assert s[i] == s[i..i + |w|][0];
      assert s[i + |w| - 1] == s[i..i + |w|][|w| - 1];
      OccursInSlice(s, a, b, w, i - a);
    }
    if Contains(s[a..b], w) {
      var i :| 0 <= i <= |s[a..b]| - |w| && OccursAt(s[a..b], w, i);
      OccursInSlice(s, a, b, w, i);
    }
  }

  /** Replacing spaces by underscores does not affect a word that holds neither. */
  lemma ContainsAfterUnderscores(s: string, w: string)
    requires ' ' !in w && '_' !in w
    ensures Contains(SpacesToUnderscores(s), w) <==> Contains(s, w)
  {
    var u := SpacesToUnderscores(s);
    SpacesToUnderscoresSpec(s);
    ContainsSpec(s, w);
    ContainsSpec(u, w);
    if Contains(u, w) {
      var i :| 0 <= i <= |u| - |w| && OccursAt(u, w, i);
      forall k | 0 <= k < |w| ensures s[i + k] == w[k] {
        assert u[i + k] == w[k];
      }
      assert s[i..i + |w|] == w;
      assert OccursAt(s, w, i);
    }
    if Contains(s, w) {
      var i :| 0 <= i <= |s| - |w| && OccursAt(s, w, i);
      forall k | 0 <= k < |w| ensures u[i + k] == w[k] {
        assert s[i + k] == w[k];
      }
      assert u[i..i + |w|] == w;
      assert OccursAt(u, w, i);
    }
  }

  /** Python's `s.split(c)[0]`: everything before the first `c`, or all of `s`. */
  function BeforeFirst(s: string, c: char): (r: string)
    ensures c !in r
    ensures r <= s
    ensures |r| < |s| ==> s[|r|] == c
    ensures c !in s ==> r == s
  {
    if s == [] || s[0] == c then [] else [s[0]] + BeforeFirst(s[1..], c)
  }

  // ---------------------------------------------------------------------------
  // An option's label as the browser reports it.
  // ---------------------------------------------------------------------------

  /** The ASCII whitespace of the HTML standard: tab, line feed, form feed, carriage return and space. */
  predicate IsAsciiSpace(c: char)
  {
    c == '\t' || c == '\n' || c == '\U{0C}' || c == '\r' || c == ' '
  }

  /** The only whitespace is single spaces, and the text does not end with one. */
  predicate Spaced(s: string)
  {
    && (forall i :: 0 <= i < |s| && IsAsciiSpace(s[i]) ==> s[i] == ' ')
    && (forall i :: 0 < i < |s| && s[i] == ' ' ==> s[i - 1] != ' ')
    && (s != [] ==> s[|s| - 1] != ' ')
  }

  /** Text as the HTML standard's strip-and-collapse leaves it: spaced, and not starting with a space. */
  predicate IsCollapsed(s: string)
  {
    Spaced(s) && (s != [] ==> s[0] != ' ')
  }

  lemma SpacedTail(s: string)
    requires Spaced(s) && s != []
    ensures Spaced(s[1..])
  {
    forall i | 0 < i < |s[1..]| && s[1..][i] == ' ' ensures s[1..][i - 1] != ' ' {
      assert s[1..][i] == s[i + 1] && s[1..][i - 1] == s[i];
    }
  }

  /** A character that is not whitespace may lead a spaced text, with or without one space before it. */
  lemma SpacedCons(c: char, r: string)
    requires !IsAsciiSpace(c) && Spaced(r)
    ensures Spaced([c] + r) && Spaced([' ', c] + r)
  {
    var a, b := [c] + r, [' ', c] + r;
    forall i | 0 < i < |a| && a[i] == ' ' ensures a[i - 1] != ' ' {
      assert a[i] == r[i - 1];
      if i > 1 { assert a[i - 1] == r[i - 2]; }
    }
    forall i | 0 < i < |b| && b[i] == ' ' ensures b[i - 1] != ' ' {
      if i > 1 { assert b[i] == r[i - 2]; }
      if i > 2 { assert b[i - 1] == r[i - 3]; }
    }
    forall i | 0 <= i < |a| && IsAsciiSpace(a[i]) ensures a[i] == ' ' {
      if i > 0 { assert a[i] == r[i - 1]; }
    }
    forall i | 0 <= i < |b| && IsAsciiSpace(b[i]) ensures b[i] == ' ' {
      if i > 1 { assert b[i] == r[i - 2]; }
    }
  }

  /**
   * Strip-and-collapse from part-way through a text: `started` says a
   * character other than whitespace has been kept already, and `pending` that
   * whitespace has been passed since, to be written as one space before the
   * next kept character.
   */
  function Collapse(s: string, pending: bool, started: bool): (r: string)
    ensures Spaced(r)
    ensures r != [] && r[0] == ' ' ==> pending || started
    decreases |s|
  {
    if s == [] then []
    else if IsAsciiSpace(s[0]) then Collapse(s[1..], started, started)
    else
      var rest := Collapse(s[1..], false, true);
      SpacedCons(s[0], rest);
      (if pending then [' ', s[0]] else [s[0]]) + rest
  }

  /**
   * The HTML standard's "strip and collapse ASCII whitespace": leading and
   * trailing whitespace removed, and every inner run of it replaced by one
   * space. This is how an `<option>` without a `label` attribute is labelled.
   */
  function CollapseSpaces(s: string): (r: string)
    ensures IsCollapsed(r)
  {
    Collapse(s, false, false)
  }

  /** On text that is already spaced, collapsing writes the pending space (if any) and copies the rest. */
  lemma {:induction false} CollapseOfSpaced(s: string, pending: bool, started: bool)
    requires Spaced(s)
    requires s != [] && s[0] == ' ' ==> started && !pending
    requires pending ==> s != []
    ensures Collapse(s, pending, started) == (if pending then [' '] else []) + s
    decreases |s|
  {
    if s != [] {
      SpacedTail(s);
      if s[0] == ' ' {
        assert s[1..] != [] && s[1] != ' ';
        CollapseOfSpaced(s[1..], true, true);
      } else {
        CollapseOfSpaced(s[1..], false, true);
      }
    }
  }

  /** Collapsing leaves a text unchanged exactly when it is already collapsed; so a second pass changes nothing. */
  lemma CollapseSpacesFixed(s: string)
    ensures CollapseSpaces(s) == s <==> IsCollapsed(s)
    ensures CollapseSpaces(CollapseSpaces(s)) == CollapseSpaces(s)
  {
    if IsCollapsed(s) {
      CollapseOfSpaced(s, false, false);
    }
    CollapseOfSpaced(CollapseSpaces(s), false, false);
  }

  predicate IsWordChar(c: char)
  {
    !IsAsciiSpace(c)
  }

  /**
   * The words of `s`, as Python's `s.split()` would give them under ASCII
   * whitespace: the maximal runs of non-whitespace, in order; `cur` is a word
   * already begun.
   */
  function WordsFrom(s: string, cur: string): seq<string>
    decreases |s|
  {
    if s == [] then (if cur == [] then [] else [cur])
    else if IsAsciiSpace(s[0]) then (if cur == [] then [] else [cur]) + WordsFrom(s[1..], [])
    else WordsFrom(s[1..], cur + [s[0]])
  }

  function Words(s: string): seq<string>
  {
    WordsFrom(s, [])
  }

  /** Every word is non-empty and holds no whitespace. */
  lemma {:induction false} WordsFromSpec(s: string, cur: string)
    requires forall i :: 0 <= i < |cur| ==> IsWordChar(cur[i])
    ensures forall k :: 0 <= k < |WordsFrom(s, cur)| ==> WordsFrom(s, cur)[k] != []
    ensures forall k, i :: 0 <= k < |WordsFrom(s, cur)| && 0 <= i < |WordsFrom(s, cur)[k]| ==> IsWordChar(WordsFrom(s, cur)[k][i])
    decreases |s|
  {
    if s != [] {
      if IsAsciiSpace(s[0]) {
        WordsFromSpec(s[1..], []);
      } else {
        var cur' := cur + [s[0]];
        assert forall i :: 0 <= i < |cur'| ==> IsWordChar(cur'[i]) by {
          forall i | 0 <= i < |cur'| ensures IsWordChar(cur'[i]) {
            if i < |cur| { assert cur'[i] == cur[i]; }
          }
        }
        WordsFromSpec(s[1..], cur');
      }
    }
  }

  /** Continuing a begun word: the word so far, then the rest collapsed, is the words joined by spaces. */
  lemma {:induction false} CollapseContinues(s: string, cur: string)
    requires cur != []
    ensures WordsFrom(s, cur) != []
    ensures Join(" ", WordsFrom(s, cur)) == cur + Collapse(s, false, true)
    decreases |s|, 1
  {
    if s == [] {
    } else if IsAsciiSpace(s[0]) {
      var w := WordsFrom(s[1..], []);
      CollapsePending(s[1..]);
      assert WordsFrom(s, cur) == [cur] + w;
      if w != [] {
        assert ([cur] + w)[1..] == w;
      }
    } else {
      CollapseContinues(s[1..], cur + [s[0]]);
      assert cur + [s[0]] + Collapse(s[1..], false, true) == cur + ([s[0]] + Collapse(s[1..], false, true));
    }
  }

  /** After whitespace that follows a kept character: one space and the joined words, or nothing if no word is left. */
  lemma {:induction false} CollapsePending(s: string)
    ensures Collapse(s, true, true) == (if Words(s) == [] then [] else [' '] + Join(" ", Words(s)))
    decreases |s|, 0
  {
    if s == [] {
    } else if IsAsciiSpace(s[0]) {
      assert Words(s) == Words(s[1..]) by { assert Words(s) == [] + Words(s[1..]); }
      assert Collapse(s, true, true) == Collapse(s[1..], true, true);
      CollapsePending(s[1..]);
    } else {
      assert Words(s) == WordsFrom(s[1..], [s[0]]) by { assert [] + [s[0]] == [s[0]]; }
      CollapseContinues(s[1..], [s[0]]);
    }
  }

  /**
   * The label is the words of the text, in order, joined by single spaces:
   * Python's `" ".join(s.split())` over ASCII whitespace.
   */
  lemma {:induction false} CollapseSpacesJoinsWords(s: string)
    ensures CollapseSpaces(s) == Join(" ", Words(s))
    decreases |s|
  {
    if s == [] {
    } else if IsAsciiSpace(s[0]) {
      assert Words(s) == Words(s[1..]) by { assert Words(s) == [] + Words(s[1..]); }
      assert CollapseSpaces(s) == CollapseSpaces(s[1..]);
      CollapseSpacesJoinsWords(s[1..]);
    } else {
      assert Words(s) == WordsFrom(s[1..], [s[0]]) by { assert [] + [s[0]] == [s[0]]; }
      CollapseContinues(s[1..], [s[0]]);
    }
  }

  /** Collapsing keeps every character that is not whitespace, in order, and drops no other. */
  lemma {:induction false} CollapseKeepsText(s: string, pending: bool, started: bool)
    ensures Filter(IsWordChar, Collapse(s, pending, started)) == Filter(IsWordChar, s)
    decreases |s|
  {
    if s != [] {
      if IsAsciiSpace(s[0]) {
        CollapseKeepsText(s[1..], started, started);
      } else {
        var rest := Collapse(s[1..], false, true);
        CollapseKeepsText(s[1..], false, true);
        var lead: string := if pending then [' ', s[0]] else [s[0]];
        FilterAppend(IsWordChar, lead, rest);
        assert Filter(IsWordChar, lead) == [s[0]] by {
          if pending { assert lead[1..] == [s[0]]; }
        }
      }
    }
  }

  /** The label of the option text "IPC " is "IPC". */
  lemma CollapseTrailingSpace()
    ensures CollapseSpaces("IPC ") == "IPC"
  {
  }
}
