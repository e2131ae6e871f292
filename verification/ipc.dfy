/**
 * The IPC act filter: the pattern `^(I.P.C|IPC|Indian Penal Code)\b.*$`, compiled
 * with IGNORECASE and applied with `search`, written out by hand as three
 * alternatives, each followed by a word-boundary check and the tail `.*$`.
 */
module IpcRegex {
  import opened Wrappers
  import opened Seqs
  import opened Text

  /** The alternatives of the group, in the order the regex engine tries them. */
  const DottedIpc: string := "I.P.C"
  const PlainIpc: string := "IPC"
  const PenalCode: string := "Indian Penal Code"

  /**
   * Subject character `c` matches pattern character `p`: an unescaped `.` takes
   * anything but a newline; a letter takes both ASCII cases, and an `I` also
   * takes the dotted capital I (U+0130) and the dotless small i (U+0131), which
   * Python's case-insensitive matching folds onto `i`.
   */
  predicate CharMatches(p: char, c: char)
  {
    if p == '.' then c != '\n'
    else LowerChar(c) == LowerChar(p) || (LowerChar(p) == 'i' && (c == 'İ' || c == 'ı'))
  }

  /** The subject starts with a match of the pattern text `pat`. */
  predicate MatchesPrefix(pat: string, s: string)
  {
    pat == [] || (s != [] && CharMatches(pat[0], s[0]) && MatchesPrefix(pat[1..], s[1..]))
  }

  lemma {:induction false} MatchesPrefixSpec(pat: string, s: string)
    ensures MatchesPrefix(pat, s) <==> |pat| <= |s| && forall i :: 0 <= i < |pat| ==> CharMatches(pat[i], s[i])
  {
    if pat != [] && s != [] {
      MatchesPrefixSpec(pat[1..], s[1..]);
      if CharMatches(pat[0], s[0]) && MatchesPrefix(pat[1..], s[1..]) {
        forall i | 0 <= i < |pat| ensures CharMatches(pat[i], s[i]) {
          if i > 0 {
            assert pat[1..][i - 1] == pat[i] && s[1..][i - 1] == s[i];
          }
        }
      }
      if |pat| <= |s| && forall i :: 0 <= i < |pat| ==> CharMatches(pat[i], s[i]) {
        forall i | 0 <= i < |pat| - 1 ensures CharMatches(pat[1..][i], s[1..][i]) {
          assert pat[1..][i] == pat[i + 1] && s[1..][i] == s[i + 1];
        }
      }
    }
  }

  /** A word character for `\b`: an ASCII letter, digit or underscore. */
  predicate IsWordChar(c: char)
  {
    'a' <= c <= 'z' || 'A' <= c <= 'Z' || '0' <= c <= '9' || c == '_'
  }

  /**
   * `\b` at position `n`: a word character on exactly one side, the ends of the
   * subject counting as non-word.
   */
  predicate Boundary(s: string, n: nat)
    requires n <= |s|
  {
    (0 < n && IsWordChar(s[n - 1])) != (n < |s| && IsWordChar(s[n]))
  }

  /**
   * `.*$` on the rest of the subject: `.` stops at a newline and `$` holds at the
   * end or before a final newline, so no newline may come before the last character.
   */
  predicate TailMatches(t: string)
  {
    |t| <= 1 || (t[0] != '\n' && TailMatches(t[1..]))
  }

  lemma {:induction false} TailMatchesSpec(t: string)
    ensures TailMatches(t) <==> forall j :: 0 <= j < |t| - 1 ==> t[j] != '\n'
  {
    if |t| > 1 {
      TailMatchesSpec(t[1..]);
      assert forall j :: 0 < j < |t| - 1 ==> t[1..][j - 1] == t[j];
    }
  }

  /** One alternative, then `\b`, then `.*$`, all from the start of the subject. */
  predicate AlternativeMatches(alt: string, s: string)
  {
    |alt| <= |s| && MatchesPrefix(alt, s) && Boundary(s, |alt|) && TailMatches(s[|alt|..])
  }

  /**
   * `ipc_regex.search(text)`: without MULTILINE the `^` anchors the only
   * possible match at position 0, where the group's alternatives are tried in turn.
   */
  predicate IpcMatch(s: string)
  {
    AlternativeMatches(DottedIpc, s) || AlternativeMatches(PlainIpc, s) || AlternativeMatches(PenalCode, s)
  }

  /**
   * The same acceptance stated without recursion: some alternative matches
   * character by character at the start, the next character (if any) is not a
   * word character, and no newline follows before the last character.
   */
  predicate MatchesAt(alt: string, s: string)
  {
    && |alt| <= |s|
    && (forall i :: 0 <= i < |alt| ==> CharMatches(alt[i], s[i]))
    && (|alt| == |s| || !IsWordChar(s[|alt|]))
    && (forall j :: |alt| <= j < |s| - 1 ==> s[j] != '\n')
  }

  lemma AlternativeMatchesSpec(alt: string, s: string)
    requires alt == DottedIpc || alt == PlainIpc || alt == PenalCode
    ensures AlternativeMatches(alt, s) <==> MatchesAt(alt, s)
  {
    MatchesPrefixSpec(alt, s);
    if |alt| <= |s| {
      var n := |alt|;
      TailMatchesSpec(s[n..]);
      forall j | n <= j < |s| - 1 ensures s[n..][j - n] == s[j] {
      }
      if MatchesPrefix(alt, s) {
        assert CharMatches(alt[n - 1], s[n - 1]);
        assert alt[n - 1] == 'C' || alt[n - 1] == 'e';
        assert IsWordChar(s[n - 1]);
      }
    }
  }

  /** The declarative reading of the pattern. */
  lemma IpcMatchSpec(s: string)
    ensures IpcMatch(s) <==> MatchesAt(DottedIpc, s) || MatchesAt(PlainIpc, s) || MatchesAt(PenalCode, s)
  {
    AlternativeMatchesSpec(DottedIpc, s);
    AlternativeMatchesSpec(PlainIpc, s);
    AlternativeMatchesSpec(PenalCode, s);
  }

  /** Lower-casing one character changes neither what it matches nor its class. */
  lemma LowerCharInvisible(c: char)
    ensures forall p :: CharMatches(p, LowerChar(c)) <==> CharMatches(p, c)
    ensures IsWordChar(LowerChar(c)) <==> IsWordChar(c)
    ensures LowerChar(c) == '\n' <==> c == '\n'
  {
  }

  /** Lower-casing the subject does not change whether an alternative matches it. */
  lemma MatchesAtLower(alt: string, s: string)
    ensures MatchesAt(alt, Lower(s)) <==> MatchesAt(alt, s)
  {
    var l := Lower(s);
    LowerAt(s);
    forall i | 0 <= i < |s| ensures l[i] == LowerChar(s[i]) {
    }
    forall i | 0 <= i < |s| {
      LowerCharInvisible(s[i]);
    }
  }

  /** Changing the case of ASCII letters never changes the verdict. */
  lemma IpcMatchIgnoresCase(s: string)
    ensures IpcMatch(Lower(s)) <==> IpcMatch(s)
  {
    IpcMatchSpec(s);
    IpcMatchSpec(Lower(s));
    MatchesAtLower(DottedIpc, s);
    MatchesAtLower(PlainIpc, s);
    MatchesAtLower(PenalCode, s);
  }

  /** The match is anchored: an accepted subject starts with some form of `I`. */
  lemma IpcMatchAnchored(s: string)
    requires IpcMatch(s)
    ensures |s| >= 3 && CharMatches('I', s[0])
  {
    IpcMatchSpec(s);
  }

  /**
   * A recognised prefix followed by anything that starts with a non-word
   * character and holds no newline before its last character is accepted.
   */
  lemma IpcMatchAcceptsSuffix(alt: string, t: string)
    requires alt == DottedIpc || alt == PlainIpc || alt == PenalCode
    requires t == [] || !IsWordChar(t[0])
    requires forall j :: 0 <= j < |t| - 1 ==> t[j] != '\n'
    ensures IpcMatch(alt + t)
  {
    var s := alt + t;
    AlternativeMatchesSpec(alt, s);
    forall i | 0 <= i < |alt| ensures CharMatches(alt[i], s[i]) {
      assert s[i] == alt[i];
      assert LowerChar(alt[i]) == LowerChar(alt[i]);
    }
    forall j | |alt| <= j < |s| - 1 ensures s[j] != '\n' {
      assert s[j] == t[j - |alt|];
    }
    if t != [] {
      assert s[|alt|] == t[0];
    }
    assert MatchesAt(alt, s);
  }

  /** A subject whose first character is no form of `I` is rejected. */
  lemma IpcMatchRejectsOtherStart(s: string)
    requires s == [] || !CharMatches('I', s[0])
    ensures !IpcMatch(s)
  {
    IpcMatchSpec(s);
  }

  /** "I.P.C." is accepted. */
  lemma AcceptsDottedWithStop()
    ensures IpcMatch("I.P.C.")
  {
    assert "I.P.C." == DottedIpc + ".";
    IpcMatchAcceptsSuffix(DottedIpc, ".");
  }

  /** "IPC" is accepted. */
  lemma AcceptsPlain()
    ensures IpcMatch("IPC")
  {
    assert "IPC" == PlainIpc + "";
    IpcMatchAcceptsSuffix(PlainIpc, "");
  }

  /** "Indian Penal Code" is accepted. */
  lemma AcceptsPenalCode()
    ensures IpcMatch("Indian Penal Code")
  {
    assert "Indian Penal Code" == PenalCode + "";
    IpcMatchAcceptsSuffix(PenalCode, "");
  }

  /** "I.P.C (Police), 1098" is accepted. */
  lemma AcceptsDottedWithDetails()
    ensures IpcMatch("I.P.C (Police), 1098")
  {
    assert "I.P.C (Police), 1098" == DottedIpc + " (Police), 1098";
    IpcMatchAcceptsSuffix(DottedIpc, " (Police), 1098");
  }

  /** "I.P.C. 1234" is accepted. */
  lemma AcceptsDottedWithNumber()
    ensures IpcMatch("I.P.C. 1234")
  {
    assert "I.P.C. 1234" == DottedIpc + ". 1234";
    IpcMatchAcceptsSuffix(DottedIpc, ". 1234");
  }

  /** "ipc" is accepted: matching ignores case. */
  lemma AcceptsLowerCase()
    ensures IpcMatch("ipc")
  {
    AcceptsPlain();
    IpcMatchIgnoresCase("IPC");
    assert Lower("IPC") == "ipc";
  }

  /** "I.P.C. and other details" is accepted. */
  lemma AcceptsDottedWithWords()
    ensures IpcMatch("I.P.C. and other details")
  {
    assert "I.P.C. and other details" == DottedIpc + ". and other details";
    IpcMatchAcceptsSuffix(DottedIpc, ". and other details");
  }

  /** "Something else" is rejected. */
  lemma RejectsSomethingElse()
    ensures !IpcMatch("Something else")
  {
    IpcMatchRejectsOtherStart("Something else");
  }

  /** The unescaped dots match any character, so text straight after `I.P.C` with a space is accepted. */
  lemma AcceptsExtraPrefixText()
    ensures IpcMatch("I.P.C extra-prefix text")
  {
    assert "I.P.C extra-prefix text" == DottedIpc + " extra-prefix text";
    IpcMatchAcceptsSuffix(DottedIpc, " extra-prefix text");
  }

  /** The unescaped dots match letters as well as full stops. */
  lemma AcceptsAnyDots()
    ensures IpcMatch("IxPxC")
  {
    IpcMatchSpec("IxPxC");
    assert MatchesAt(DottedIpc, "IxPxC");
  }

  /** A leading space defeats the anchor. */
  lemma RejectsLeadingSpace()
    ensures !IpcMatch(" IPC")
  {
    IpcMatchRejectsOtherStart(" IPC");
  }

  /** A character the pattern cannot match defeats an alternative. */
  lemma MismatchRejects(alt: string, s: string, i: nat)
    requires i < |alt| && i < |s| && !CharMatches(alt[i], s[i])
    ensures !MatchesAt(alt, s)
  {
  }

  /** A word character straight after an alternative defeats it. */
  lemma WordAfterRejects(alt: string, s: string)
    requires |alt| < |s| && IsWordChar(s[|alt|])
    ensures !MatchesAt(alt, s)
  {
  }

  /** A word character straight after "Indian Penal Code" defeats the word boundary. */
  lemma RejectsWordAfterPenalCode(t: string)
    requires t != [] && IsWordChar(t[0])
    ensures !IpcMatch(PenalCode + t)
  {
    var s := PenalCode + t;
    IpcMatchSpec(s);
    assert s[1] == 'n' && s[2] == 'd' && s[|PenalCode|] == t[0];
    MismatchRejects(DottedIpc, s, 2);
    MismatchRejects(PlainIpc, s, 1);
    WordAfterRejects(PenalCode, s);
  }

  lemma RejectsLongerWord()
    ensures !IpcMatch("Indian Penal Codes")
  {
    assert "Indian Penal Codes" == PenalCode + "s";
    RejectsWordAfterPenalCode("s");
  }

  /** A newline is accepted only as the last character. */
  lemma NewlineOnlyAtEnd()
    ensures IpcMatch("IPC\n")
    ensures !IpcMatch("IPC\nmore")
  {
    assert "IPC\n" == PlainIpc + "\n";
    IpcMatchAcceptsSuffix(PlainIpc, "\n");
    var s := "IPC\nmore";
    IpcMatchSpec(s);
    assert !CharMatches(DottedIpc[2], s[2]);
    assert s[3] == '\n';
  }

  /** `extract_ipc_related_codes`: the act texts the pattern accepts, in dropdown order. */
  function IpcRelated(texts: seq<string>): (r: seq<string>)
    ensures |r| <= |texts|
  {
    Filter(IpcMatch, texts)
  }

  /** A text is kept exactly when it is one of the options and the pattern accepts it. */
  lemma IpcRelatedMembers(texts: seq<string>)
    ensures forall t :: t in IpcRelated(texts) <==> t in texts && IpcMatch(t)
  {
    FilterMembers(IpcMatch, texts);
  }

  /** The filter keeps dropdown order across any split of the options, and filtering again changes nothing. */
  lemma IpcRelatedOrder(a: seq<string>, b: seq<string>)
    ensures IpcRelated(a + b) == IpcRelated(a) + IpcRelated(b)
    ensures IpcRelated(IpcRelated(a)) == IpcRelated(a)
  {
    FilterAppend(IpcMatch, a, b);
    FilterIdempotent(IpcMatch, a);
  }

  /**
   * The navigator's `extract_ipc_related_codes`: nothing (an implicit `None`)
   * when the act dropdown is not visible, otherwise the accepted texts.
   */
  function ExtractIpcRelatedCodes(actVisible: bool, texts: seq<string>): (r: Option<seq<string>>)
    ensures r.None? <==> !actVisible
  {
    if actVisible then Some(IpcRelated(texts)) else None
  }

  /** The loop of `extract_ipc_related_codes`, appending each accepted text. */
  method CollectIpcRelated(texts: seq<string>) returns (r: seq<string>)
    ensures r == IpcRelated(texts)
  {
    r := [];
    var i := 0;
    while i < |texts|
      invariant 0 <= i <= |texts|
      invariant r == IpcRelated(texts[..i])
    {
      FilterSnoc(IpcMatch, texts[..i], texts[i]);
      assert texts[..i + 1] == texts[..i] + [texts[i]];
      if IpcMatch(texts[i]) {
        r := r + [texts[i]];
      }
      i := i + 1;
    }
    assert texts[..i] == texts;
  }
}
