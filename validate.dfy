/** `ValidateUtil`: the email recogniser and the checks in front of the phone-number
    library. The email pattern is
      ^[a-z0-9!#$%&'*+/=?^_`{|}~-]+(?:\.[a-z0-9!#$%&'*+/=?^_`{|}~-]+)*
       @(?:[a-z0-9](?:[a-z0-9-]*[a-z0-9])?\.)+[a-z0-9](?:[a-z0-9-]*[a-z0-9])?$
    matched against the whole untrimmed input: a lowercase dot-atom local part
    (section 3.2.3 of RFC 5322 without upper case), an at sign, and two or more
    letter-digit-hyphen labels (section 2.1 of RFC 1123, no length limit per label). */
module Validation {
  import opened Wrappers
  import opened Errors
  import opened JavaText

  /** `[a-z0-9]` */
  predicate IsAlnum(c: char) {
    'a' <= c <= 'z' || '0' <= c <= '9'
  }

  /** `[a-z0-9-]` */
  predicate IsLdh(c: char) {
    IsAlnum(c) || c == '-'
  }

  /** `[a-z0-9!#$%&'*+/=?^_`{|}~-]`: the lowercase atext characters. */
  predicate IsAtext(c: char) {
    IsAlnum(c) || c in "!#$%&'*+/=?^_`{|}~-"
  }

  /** `[atext]+`: one atom of the local part. */
  predicate IsAtom(s: string) {
    s != [] && forall i :: 0 <= i < |s| ==> IsAtext(s[i])
  }

  /** `[a-z0-9](?:[a-z0-9-]*[a-z0-9])?`: one domain label. */
  predicate IsLabel(s: string) {
    s != [] && IsAlnum(s[0]) && IsAlnum(s[|s| - 1]) && forall i :: 0 <= i < |s| ==> IsLdh(s[i])
  }

  // ---------------------------------------------------------------------------
  // The recogniser. No atom and no label contains a dot, and neither contains an
  // at sign, so every repetition in the pattern ends at the next separator and the
  // pattern can be matched without backtracking, one separator at a time.

  /** `atom(?:\.atom)*` */
  predicate MatchesDotAtom(s: string)
    decreases |s|
  {
    var k := IndexOf(s, '.');
    if k == |s| then IsAtom(s) else IsAtom(s[..k]) && MatchesDotAtom(s[k + 1..])
  }

  /** `(?:label\.)+label` */
  predicate MatchesDomain(s: string)
    decreases |s|
  {
    var k := IndexOf(s, '.');
    k < |s| && IsLabel(s[..k]) && (IsLabel(s[k + 1..]) || MatchesDomain(s[k + 1..]))
  }

  /** The whole email pattern: a dot-atom, the first at sign, and a domain. */
  predicate MatchesEmailPattern(s: string) {
    var k := IndexOf(s, '@');
    k < |s| && MatchesDotAtom(s[..k]) && MatchesDomain(s[k + 1..])
  }

  // ---------------------------------------------------------------------------
  // The reference shape: atoms joined by dots, an at sign, labels joined by dots.

  /** The parts joined with single dots. */
  function Dotted(parts: seq<string>): string {
    if parts == [] then "" else if |parts| == 1 then parts[0] else parts[0] + "." + Dotted(parts[1..])
  }

  predicate AllAtoms(parts: seq<string>) {
    forall i :: 0 <= i < |parts| ==> IsAtom(parts[i])
  }

  predicate AllLabels(parts: seq<string>) {
    forall i :: 0 <= i < |parts| ==> IsLabel(parts[i])
  }

  /** `s` is one or more atoms joined by dots, an at sign, and two or more labels
      joined by dots. */
  ghost predicate IsAddress(s: string) {
    exists local: seq<string>, domain: seq<string> ::
      && |local| >= 1 && AllAtoms(local)
      && |domain| >= 2 && AllLabels(domain)
      && s == Dotted(local) + "@" + Dotted(domain)
  }

  /** `s` cut at every dot. */
  function SplitDots(s: string): (parts: seq<string>)
    ensures |parts| >= 1
    decreases |s|
  {
    var k := IndexOf(s, '.');
    if k == |s| then [s] else [s[..k]] + SplitDots(s[k + 1..])
  }

  /** No character of `s` is `c`. */
  predicate Avoids(s: string, c: char) {
    forall i :: 0 <= i < |s| ==> s[i] != c
  }

  /** A string without a dot is its own only piece. */
  lemma SplitWithoutDot(s: string)
    requires IndexOf(s, '.') == |s|
    ensures SplitDots(s) == [s]
  {
  }

  /** A string with a dot splits into the part before the first dot and the pieces
      of the rest. */
  lemma SplitAtFirstDot(s: string, k: nat)
    requires k == IndexOf(s, '.') && k < |s|
    ensures SplitDots(s) == [s[..k]] + SplitDots(s[k + 1..])
  {
  }

  /** Joining the pieces of a split gives the string back. */
  lemma {:induction false} DottedSplit(s: string)
    ensures Dotted(SplitDots(s)) == s
    decreases |s|
  {
    var k := IndexOf(s, '.');
    if k < |s| {
      DottedSplit(s[k + 1..]);
      DottedCons(s[..k], SplitDots(s[k + 1..]));
      CutAt(s, k, '.');
    } else {
      SplitWithoutDot(s);
    }
  }

  /** Joining a first part to one or more others. */
  lemma DottedCons(x: string, rest: seq<string>)
    requires |rest| >= 1
    ensures Dotted([x] + rest) == x + "." + Dotted(rest)
  {
    assert ([x] + rest)[1..] == rest;
  }

  /** A string is the part before a separator, the separator, and the part after it. */
  lemma CutAt(s: string, k: nat, c: char)
    requires k < |s| && s[k] == c
    ensures s == s[..k] + [c] + s[k + 1..]
  {
  }

  /** Splitting dot-free parts joined by dots gives the parts back. */
  lemma {:induction false} SplitDotted(parts: seq<string>)
    requires |parts| >= 1
    requires forall i :: 0 <= i < |parts| ==> Avoids(parts[i], '.')
    ensures SplitDots(Dotted(parts)) == parts
  {
    if |parts| > 1 {
      var s := Dotted(parts);
      IndexOfAfter(parts[0], '.', Dotted(parts[1..]));
      assert s[..|parts[0]|] == parts[0];
      assert s[|parts[0]| + 1..] == Dotted(parts[1..]);
      SplitDotted(parts[1..]);
    } else {
      assert Avoids(parts[0], '.');
    }
  }

  /** A dot-joined string avoids every character other than the dot that all of its
      parts avoid. */
  lemma {:induction false} DottedAvoids(parts: seq<string>, c: char)
    requires c != '.'
    requires forall i :: 0 <= i < |parts| ==> Avoids(parts[i], c)
    ensures Avoids(Dotted(parts), c)
  {
    if |parts| > 1 {
      DottedAvoids(parts[1..], c);
      var s := Dotted(parts);
      forall i | 0 <= i < |s| ensures s[i] != c {
        if i < |parts[0]| {
          assert s[i] == parts[0][i];
        } else if i > |parts[0]| {
          assert s[i] == Dotted(parts[1..])[i - |parts[0]| - 1];
        }
      }
    } else if |parts| == 1 {
      assert Avoids(parts[0], c);
    }
  }

  /** Atoms of a split: the first piece and the rest. */
  lemma AllAtomsCons(x: string, rest: seq<string>)
    ensures AllAtoms([x] + rest) <==> IsAtom(x) && AllAtoms(rest)
  {
    var pieces := [x] + rest;
    if IsAtom(x) && AllAtoms(rest) {
      forall i | 0 <= i < |pieces| ensures IsAtom(pieces[i]) {
        if i > 0 {
          assert pieces[i] == rest[i - 1];
        }
      }
    }
    if AllAtoms(pieces) {
      assert IsAtom(pieces[0]);
      forall i | 0 <= i < |rest| ensures IsAtom(rest[i]) {
        assert rest[i] == pieces[i + 1];
      }
    }
  }

  /** Labels of a split: the first piece and the rest. */
  lemma AllLabelsCons(x: string, rest: seq<string>)
    ensures AllLabels([x] + rest) <==> IsLabel(x) && AllLabels(rest)
  {
    var pieces := [x] + rest;
    if IsLabel(x) && AllLabels(rest) {
      forall i | 0 <= i < |pieces| ensures IsLabel(pieces[i]) {
        if i > 0 {
          assert pieces[i] == rest[i - 1];
        }
      }
    }
    if AllLabels(pieces) {
      assert IsLabel(pieces[0]);
      forall i | 0 <= i < |rest| ensures IsLabel(rest[i]) {
        assert rest[i] == pieces[i + 1];
      }
    }
  }

  /** The recogniser of `atom(?:\.atom)*` accepts exactly the strings whose dot-pieces
      are all atoms. */
  lemma {:induction false} DotAtomPieces(s: string)
    ensures MatchesDotAtom(s) <==> AllAtoms(SplitDots(s))
    decreases |s|
  {
    var k := IndexOf(s, '.');
    if k < |s| {
      DotAtomPieces(s[k + 1..]);
      SplitAtFirstDot(s, k);
      AllAtomsCons(s[..k], SplitDots(s[k + 1..]));
    } else {
      SplitWithoutDot(s);
      assert AllAtoms([s]) <==> IsAtom([s][0]);
    }
  }

  /** The recogniser of `(?:label\.)+label` accepts exactly the strings with two or
      more dot-pieces, all of them labels. */
  lemma {:induction false} DomainPieces(s: string)
    ensures MatchesDomain(s) <==> |SplitDots(s)| >= 2 && AllLabels(SplitDots(s))
    decreases |s|
  {
    var k := IndexOf(s, '.');
    if k < |s| {
      var tail := s[k + 1..];
      DomainPieces(tail);
      var rest := SplitDots(tail);
      SplitAtFirstDot(s, k);
      AllLabelsCons(s[..k], rest);
      var j := IndexOf(tail, '.');
      if j < |tail| {
        // a dot in the tail: it is no label, and it splits into two or more pieces
        assert !IsLdh(tail[j]);
        SplitAtFirstDot(tail, j);
      } else {
        SplitWithoutDot(tail);
        assert AllLabels([tail]) <==> IsLabel([tail][0]);
      }
    } else {
      SplitWithoutDot(s);
    }
  }

  /** Every label is an atom: `[a-z0-9-]` lies inside atext. */
  lemma LabelsAreAtoms(parts: seq<string>)
    requires AllLabels(parts)
    ensures AllAtoms(parts)
  {
    forall i, j | 0 <= i < |parts| && 0 <= j < |parts[i]| ensures IsAtext(parts[i][j]) {
      assert IsLdh(parts[i][j]);
    }
  }

  /** No atom contains a dot or an at sign. */
  lemma AtomsAvoidSeparators(parts: seq<string>)
    requires AllAtoms(parts)
    ensures forall i :: 0 <= i < |parts| ==> Avoids(parts[i], '.') && Avoids(parts[i], '@')
  {
    forall i, j | 0 <= i < |parts| && 0 <= j < |parts[i]|
      ensures parts[i][j] != '.' && parts[i][j] != '@'
    {
      assert IsAtext(parts[i][j]);
    }
  }

  /** A matched string cut at its first at sign and at its dots is of the reference shape. */
  lemma PatternGivesAddress(s: string)
    requires MatchesEmailPattern(s)
    ensures IsAddress(s)
  {
    var k := IndexOf(s, '@');
    var local, domain := SplitDots(s[..k]), SplitDots(s[k + 1..]);
    DotAtomPieces(s[..k]);
    DomainPieces(s[k + 1..]);
    DottedSplit(s[..k]);
    DottedSplit(s[k + 1..]);
    CutAt(s, k, '@');
  }

  /** A string of the reference shape is matched: its first at sign is the one after
      the local part, and the pieces on either side split back to the parts. */
  lemma AddressMatchesPattern(s: string, local: seq<string>, domain: seq<string>)
    requires |local| >= 1 && AllAtoms(local) && |domain| >= 2 && AllLabels(domain)
    requires s == Dotted(local) + "@" + Dotted(domain)
    ensures MatchesEmailPattern(s)
  {
    LabelsAreAtoms(domain);
    AtomsAvoidSeparators(local);
    AtomsAvoidSeparators(domain);
    DottedAvoids(local, '@');
    IndexOfAfter(Dotted(local), '@', Dotted(domain));
    var k := |Dotted(local)|;
    assert s[..k] == Dotted(local);
    assert s[k + 1..] == Dotted(domain);
    SplitDotted(local);
    SplitDotted(domain);
    DotAtomPieces(s[..k]);
    DomainPieces(s[k + 1..]);
  }

  /** The recogniser accepts exactly the strings of the reference shape. */
  lemma EmailPatternIsAddress(s: string)
    ensures MatchesEmailPattern(s) <==> IsAddress(s)
  {
    if MatchesEmailPattern(s) {
      PatternGivesAddress(s);
    }
    if IsAddress(s) {
      var local, domain :| |local| >= 1 && AllAtoms(local) && |domain| >= 2 && AllLabels(domain)
                           && s == Dotted(local) + "@" + Dotted(domain);
      AddressMatchesPattern(s, local, domain);
    }
  }

  // ---------------------------------------------------------------------------
  // What an accepted address looks like.

  /** Every character of atoms joined by dots is atext or a dot. */
  lemma {:induction false} DottedAtomsCharacters(parts: seq<string>)
    requires AllAtoms(parts)
    ensures forall i :: 0 <= i < |Dotted(parts)| ==> IsAtext(Dotted(parts)[i]) || Dotted(parts)[i] == '.'
  {
    if |parts| > 1 {
      AllAtomsCons(parts[0], parts[1..]);
      assert parts == [parts[0]] + parts[1..];
      DottedAtomsCharacters(parts[1..]);
      var s := Dotted(parts);
      forall i | 0 <= i < |s| ensures IsAtext(s[i]) || s[i] == '.' {
        if i < |parts[0]| {
          assert s[i] == parts[0][i];
          assert IsAtom(parts[0]);
        } else if i > |parts[0]| {
          assert s[i] == Dotted(parts[1..])[i - |parts[0]| - 1];
        }
      }
    } else if |parts| == 1 {
      assert IsAtom(parts[0]);
    }
  }

  /** The characters an accepted address may contain. */
  predicate IsEmailChar(c: char) {
    IsAtext(c) || c == '.' || c == '@'
  }

  /** Every such character is printable ASCII and not upper case. */
  lemma EmailCharIsPlain(c: char)
    requires IsEmailChar(c)
    ensures ' ' < c && c as int < 0x7F && !('A' <= c <= 'Z')
  {
  }

  /** Two pieces of atext and dots around an at sign. */
  lemma AroundAtCharacters(a: string, b: string)
    requires forall i :: 0 <= i < |a| ==> IsAtext(a[i]) || a[i] == '.'
    requires forall i :: 0 <= i < |b| ==> IsAtext(b[i]) || b[i] == '.'
    ensures forall i :: 0 <= i < |a + "@" + b| ==> IsEmailChar((a + "@" + b)[i])
  {
    var s := a + "@" + b;
    forall i | 0 <= i < |s| ensures IsEmailChar(s[i]) {
      if i < |a| {
        assert s[i] == a[i];
      } else if i > |a| {
        assert s[i] == b[i - |a| - 1];
      }
    }
  }

  /** An accepted address is non-empty and made of atext, dots and at signs only:
      printable ASCII with no upper case, no whitespace and no control character. */
  lemma AcceptedCharacters(s: string)
    requires MatchesEmailPattern(s)
    ensures s != []
    ensures forall i :: 0 <= i < |s| ==> IsEmailChar(s[i])
    ensures forall i :: 0 <= i < |s| ==> ' ' < s[i] && s[i] as int < 0x7F && !('A' <= s[i] <= 'Z')
  {
    EmailPatternIsAddress(s);
    var local, domain :| |local| >= 1 && AllAtoms(local) && |domain| >= 2 && AllLabels(domain)
                         && s == Dotted(local) + "@" + Dotted(domain);
    LabelsAreAtoms(domain);
    DottedAtomsCharacters(local);
    DottedAtomsCharacters(domain);
    AroundAtCharacters(Dotted(local), Dotted(domain));
    forall i | 0 <= i < |s| ensures ' ' < s[i] && s[i] as int < 0x7F && !('A' <= s[i] <= 'Z') {
      EmailCharIsPlain(s[i]);
    }
  }

  /** An accepted address holds exactly one at sign. */
  lemma ExactlyOneAt(s: string)
    requires MatchesEmailPattern(s)
    ensures exists k :: 0 <= k < |s| && s[k] == '@'
    ensures forall i, j :: 0 <= i < |s| && 0 <= j < |s| && s[i] == '@' && s[j] == '@' ==> i == j
  {
    EmailPatternIsAddress(s);
    var local, domain :| |local| >= 1 && AllAtoms(local) && |domain| >= 2 && AllLabels(domain)
                         && s == Dotted(local) + "@" + Dotted(domain);
    LabelsAreAtoms(domain);
    AtomsAvoidSeparators(local);
    AtomsAvoidSeparators(domain);
    DottedAvoids(local, '@');
    DottedAvoids(domain, '@');
    assert s[|Dotted(local)|] == '@';
  }

  /** A local part accepted by `atom(?:\.atom)*` is non-empty and has no leading,
      trailing or doubled dot. */
  lemma {:induction false} DotAtomHasNoStrayDot(s: string)
    requires MatchesDotAtom(s)
    ensures s != [] && s[0] != '.' && s[|s| - 1] != '.'
    ensures forall i :: 0 <= i < |s| - 1 ==> !(s[i] == '.' && s[i + 1] == '.')
    decreases |s|
  {
    var k := IndexOf(s, '.');
    if k < |s| {
      var rest := s[k + 1..];
      DotAtomHasNoStrayDot(rest);
      assert IsAtom(s[..k]);
      assert s[0] == s[..k][0];
      assert s[|s| - 1] == rest[|rest| - 1];
      forall i | 0 <= i < |s| - 1 ensures !(s[i] == '.' && s[i + 1] == '.') {
        if i == k {
          assert s[i + 1] == rest[0];
        } else if i > k {
          assert s[i] == rest[i - k - 1] && s[i + 1] == rest[i - k];
        }
      }
    }
  }

  /** The parts of an accepted address: the local part before the only at sign is a
      dot-atom without stray dots, and the domain after it is two or more labels. */
  lemma AcceptedParts(s: string)
    requires MatchesEmailPattern(s)
    ensures var k := IndexOf(s, '@'); var local, labels := s[..k], SplitDots(s[k + 1..]);
      && local != [] && local[0] != '.' && local[|local| - 1] != '.'
      && (forall i :: 0 <= i < |local| - 1 ==> !(local[i] == '.' && local[i + 1] == '.'))
      && |labels| >= 2 && AllLabels(labels) && Dotted(labels) == s[k + 1..]
  {
    var k := IndexOf(s, '@');
    var local, domain := s[..k], s[k + 1..];
    assert MatchesDotAtom(local) && MatchesDomain(domain);
    DotAtomHasNoStrayDot(local);
    DomainPieces(domain);
    DottedSplit(domain);
  }

  // ---------------------------------------------------------------------------
  // ValidateUtil

  /** `checkEmailValidation`: null, blank after trimming, containing NUL after
      trimming, or longer than 255 code units after trimming is rejected; otherwise
      the untrimmed input must match the pattern. */
  function CheckEmailValidation(str: Option<string>): (ok: bool)
    ensures ok ==> str.Some? && MatchesEmailPattern(str.value)
  {
    match str
    case None => false
    case Some(s) =>
      var t := Trim(s);
      if t == [] || '\0' in t || Utf16Length(t) > 255 then false else MatchesEmailPattern(s)
  }

  /** The guards in front of the pattern only add the length limit: an input is
      accepted exactly when it matches the pattern and has at most 255 characters.
      Surrounding whitespace is therefore rejected, not trimmed away. */
  lemma EmailValidationIffPattern(s: string)
    ensures CheckEmailValidation(Some(s)) <==> |s| <= 255 && MatchesEmailPattern(s)
  {
    if CheckEmailValidation(Some(s)) {
      AcceptedIsShortMatch(s);
    }
    if |s| <= 255 && MatchesEmailPattern(s) {
      ShortMatchAccepted(s);
    }
  }

  /** A match of at most 255 characters passes every guard. */
  lemma ShortMatchAccepted(s: string)
    requires |s| <= 255 && MatchesEmailPattern(s)
    ensures CheckEmailValidation(Some(s))
  {
    PatternPassesGuards(s);
  }

  /** An accepted address matches and, being its own trim, has at most 255 characters. */
  lemma AcceptedIsShortMatch(s: string)
    requires CheckEmailValidation(Some(s))
    ensures |s| <= 255 && MatchesEmailPattern(s)
  {
    PatternPassesGuards(s);
  }

  /** A string matching the pattern is its own trim, has no NUL and has one code
      unit per character. */
  lemma PatternPassesGuards(s: string)
    requires MatchesEmailPattern(s)
    ensures Trim(s) == s && s != [] && '\0' !in s && Utf16Length(s) == |s|
  {
    AcceptedCharacters(s);
    PlainPassesGuards(s);
  }

  lemma PlainPassesGuards(s: string)
    requires forall i :: 0 <= i < |s| ==> ' ' < s[i] && s[i] as int < 0x7F
    ensures Trim(s) == s && '\0' !in s && Utf16Length(s) == |s|
  {
    TrimKeepsPrintable(s);
    Utf16LengthOfBmp(s);
  }

  /** Upper case is not folded: an address with an upper-case letter is rejected. */
  lemma EmailValidationRejectsUpperCase(s: string, i: nat)
    requires i < |s| && 'A' <= s[i] <= 'Z'
    ensures !CheckEmailValidation(Some(s))
  {
    if CheckEmailValidation(Some(s)) {
      AcceptedCharacters(s);
    }
  }

  /** Leading or trailing whitespace is rejected, because the pattern is matched
      against the untrimmed input. */
  lemma EmailValidationRejectsPadding(s: string, c: char)
    requires IsWhitespace(c)
    ensures !CheckEmailValidation(Some([c] + s)) && !CheckEmailValidation(Some(s + [c]))
  {
    if CheckEmailValidation(Some([c] + s)) {
      AcceptedCharacters([c] + s);
    }
    if CheckEmailValidation(Some(s + [c])) {
      AcceptedCharacters(s + [c]);
    }
  }

  /** What registration and seeding throw when `checkEmailValidation` refuses. */
  const InvalidEmailMessage := "Invalid email address! Please provide proper email address."

  const MobileMissingMessage := "The mobile is missing."

  function MissingCountryKeyMessage(mobile: string): string {
    "The mobile: " + mobile + " is missing the country key."
  }

  /** `checkMobileNumberValidation`. `isMobileNumber` stands for the phone-number
      library: parsing for region EG, a valid number that is not a fixed line, and
      `false` when parsing fails. */
  function CheckMobileNumberValidation(str: Option<string>, isMobileNumber: string -> bool): (r: Result<bool, Fault>)
    ensures str.None? || str.value == [] ==> r == Err(Runtime(MobileMissingMessage))
    ensures str.Some? && str.value != [] && !StartsWith(Trim(str.value), "00") && !StartsWith(Trim(str.value), "+")
            ==> r == Err(Runtime(MissingCountryKeyMessage(str.value)))
    ensures r.Ok? <==> str.Some? && str.value != [] && (StartsWith(Trim(str.value), "00") || StartsWith(Trim(str.value), "+"))
    ensures r.Ok? ==> r.value == isMobileNumber(str.value)
  {
    match str
    case None => Err(Runtime(MobileMissingMessage))
    case Some(s) =>
      if s == [] then Err(Runtime(MobileMissingMessage))
      else if !(StartsWith(Trim(s), "00") || StartsWith(Trim(s), "+")) then Err(Runtime(MissingCountryKeyMessage(s)))
      else Ok(isMobileNumber(s))
  }
}
