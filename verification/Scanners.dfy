/** The hand-written identifier scanners of the content package, proved to accept exactly
    the bounded regular languages of the database constraints and the manifest schema. */
module Scanners {
  import opened Texts
  import opened Regexes

  const MAX_SLUG_CHARS := 100
  const MAX_REVISION_CHARS := 64

  const LETTER := [('a', 'z')]
  const LETTER_OR_DIGIT := [('a', 'z'), ('0', '9')]
  const HYPHEN := [('-', '-')]
  const HEX_DIGIT := [('a', 'f'), ('0', '9')]

  const HYPHEN_GROUPS := Star(Cat(Class(HYPHEN), Plus(Class(LETTER_OR_DIGIT))))

  /** `[a-z0-9]+(-[a-z0-9]+)*` */
  const SLUG := Cat(Plus(Class(LETTER_OR_DIGIT)), HYPHEN_GROUPS)

  /** `[a-z][a-z0-9]*(-[a-z0-9]+)*` */
  const IDENTIFIER := Cat(Cat(Class(LETTER), Star(Class(LETTER_OR_DIGIT))), HYPHEN_GROUPS)

  /** `[a-f0-9]{7,64}` */
  const REVISION := Repeat(Class(HEX_DIGIT), 7, MAX_REVISION_CHARS)

  /** The language of `r` cut off at `most` characters. */
  ghost predicate Bounded(r: Regex, most: int, t: Text) {
    |t| <= most && Matches(r, t)
  }

  /** The rune a `range` loop sees for one piece. */
  function RangeRune(g: Glyph): char {
    if g.Rune? then g.c else '\U{FFFD}'
  }

  predicate IsLetter(g: Glyph) { 'a' <= RangeRune(g) <= 'z' }

  predicate IsDigit(g: Glyph) { '0' <= RangeRune(g) <= '9' }

  predicate IsHyphen(g: Glyph) { RangeRune(g) == '-' }

  predicate IsAlnum(g: Glyph) { IsLetter(g) || IsDigit(g) }

  predicate AllAlnum(t: Text) { forall i :: 0 <= i < |t| ==> IsAlnum(t[i]) }

  /** What may follow a letter or digit, and what may follow a hyphen. */
  predicate AfterAlnum(t: Text) {
    t == [] || (IsAlnum(t[0]) && AfterAlnum(t[1..])) || (IsHyphen(t[0]) && AfterHyphen(t[1..]))
  }

  predicate AfterHyphen(t: Text) {
    t != [] && IsAlnum(t[0]) && AfterAlnum(t[1..])
  }

  lemma ClassMeanings(g: Glyph)
    ensures InClass(LETTER, g) <==> IsLetter(g)
    ensures InClass(LETTER_OR_DIGIT, g) <==> IsAlnum(g)
    ensures InClass(HYPHEN, g) <==> IsHyphen(g)
  {
    assert LETTER[0] == ('a', 'z') && LETTER_OR_DIGIT[0] == ('a', 'z') && LETTER_OR_DIGIT[1] == ('0', '9');
    assert HYPHEN[0] == ('-', '-');
  }

  lemma {:induction false} StarIsAllAlnum(t: Text)
    ensures Matches(Star(Class(LETTER_OR_DIGIT)), t) <==> AllAlnum(t)
  {
    StarOfClass(LETTER_OR_DIGIT, t);
    forall i | 0 <= i < |t| { ClassMeanings(t[i]); }
  }

  /** A concatenation that starts with a character class peels off one character. */
  lemma {:induction false} ClassThen(head: seq<(char, char)>, r: Regex, t: Text)
    ensures Matches(Cat(Class(head), r), t) <==> t != [] && InClass(head, t[0]) && Matches(r, t[1..])
  {
  }

  /** One class character followed by any letters and digits. */
  lemma {:induction false} HeadThenAlnum(head: seq<(char, char)>, t: Text)
    ensures Matches(Cat(Class(head), Star(Class(LETTER_OR_DIGIT))), t)
       <==> t != [] && InClass(head, t[0]) && AllAlnum(t[1..])
  {
    ClassThen(head, Star(Class(LETTER_OR_DIGIT)), t);
    if t != [] { StarIsAllAlnum(t[1..]); }
  }

  /** The first `j` pieces of `t` are one hyphen group. */
  predicate GroupPrefix(t: Text, j: int) {
    2 <= j <= |t| && IsHyphen(t[0]) && AllAlnum(t[1..j])
  }

  lemma {:induction false} OneGroup(t: Text)
    ensures Matches(Cat(Class(HYPHEN), Plus(Class(LETTER_OR_DIGIT))), t) <==> GroupPrefix(t, |t|)
  {
    ClassThen(HYPHEN, Plus(Class(LETTER_OR_DIGIT)), t);
    if t != [] {
      ClassMeanings(t[0]);
      HeadThenAlnum(LETTER_OR_DIGIT, t[1..]);
      if |t| > 1 {
        ClassMeanings(t[1]);
        assert t[1..] == t[1..|t|] == [t[1]] + t[1..][1..];
      }
    }
  }

  /** The law that fixes a language of hyphen groups. */
  ghost predicate Unfolds(groups: Text -> bool) {
    forall t :: UnfoldsAt(groups, t)
  }

  ghost predicate UnfoldsAt(groups: Text -> bool, t: Text) {
    groups(t) <==> t == [] || exists j :: GroupPrefix(t, j) && groups(t[j..])
  }

  lemma {:induction false} GroupsUnfold(t: Text)
    ensures Matches(HYPHEN_GROUPS, t)
       <==> t == [] || exists j :: GroupPrefix(t, j) && Matches(HYPHEN_GROUPS, t[j..])
  {
    var group := Cat(Class(HYPHEN), Plus(Class(LETTER_OR_DIGIT)));
    if j :| GroupPrefix(t, j) && Matches(HYPHEN_GROUPS, t[j..]) {
      OneGroup(t[..j]);
      assert t[..j][1..j] == t[1..j];
      assert Matches(group, t[..j]) && Matches(HYPHEN_GROUPS, t[j..]);
    }
    if t != [] && Matches(HYPHEN_GROUPS, t) {
      var j :| 1 <= j <= |t| && Matches(group, t[..j]) && Matches(HYPHEN_GROUPS, t[j..]);
      OneGroup(t[..j]);
      assert t[..j][1..j] == t[1..j];
      assert GroupPrefix(t, j);
    }
  }

  ghost predicate SplitAt(groups: Text -> bool, t: Text, i: int) {
    0 <= i <= |t| && AllAlnum(t[..i]) && groups(t[i..])
  }

  /** The automaton state reached after a letter or digit accepts `[a-z0-9]*(-[a-z0-9]+)*`. */
  lemma {:induction false} AutomatonSplits(groups: Text -> bool, t: Text)
    requires Unfolds(groups) && AfterAlnum(t)
    ensures exists i :: SplitAt(groups, t, i)
    decreases |t|
  {
    assert t[0..] == t && UnfoldsAt(groups, t);
    if t == [] {
      assert SplitAt(groups, t, 0);
    } else if IsAlnum(t[0]) {
      AutomatonSplits(groups, t[1..]);
      var i :| SplitAt(groups, t[1..], i);
      assert t[1..][i..] == t[i + 1..] && t[..i + 1] == [t[0]] + t[1..][..i];
      assert SplitAt(groups, t, i + 1);
    } else {
      assert t[1..][1..] == t[2..];
      AutomatonSplits(groups, t[2..]);
      var i :| SplitAt(groups, t[2..], i);
      assert t[2..][i..] == t[i + 2..] && t[1..i + 2] == [t[1]] + t[2..][..i];
      assert GroupPrefix(t, i + 2);
      assert SplitAt(groups, t, 0);
    }
  }

  lemma SplitPeelsAlnum(groups: Text -> bool, t: Text, i: int)
    requires SplitAt(groups, t, i) && i > 0
    ensures IsAlnum(t[0]) && SplitAt(groups, t[1..], i - 1)
  {
    assert t[1..][i - 1..] == t[i..] && t[1..][..i - 1] == t[..i][1..];
    assert IsAlnum(t[..i][0]);
  }

  lemma SplitPeelsGroup(groups: Text -> bool, t: Text) returns (i: int)
    requires UnfoldsAt(groups, t) && SplitAt(groups, t, 0) && t != []
    ensures |t| >= 2 && IsHyphen(t[0]) && IsAlnum(t[1]) && SplitAt(groups, t[2..], i)
  {
    assert t[0..] == t;
    var j :| GroupPrefix(t, j) && groups(t[j..]);
    i := j - 2;
    assert t[2..][i..] == t[j..] && t[2..][..i] == t[1..j][1..];
    assert IsAlnum(t[1..j][0]);
  }

  lemma {:induction false} SplitsAutomaton(groups: Text -> bool, t: Text, i: int)
    requires Unfolds(groups) && SplitAt(groups, t, i)
    ensures AfterAlnum(t)
    decreases |t|
  {
    if i > 0 {
      SplitPeelsAlnum(groups, t, i);
      SplitsAutomaton(groups, t[1..], i - 1);
    } else if t != [] {
      assert UnfoldsAt(groups, t);
      var k := SplitPeelsGroup(groups, t);
      SplitsAutomaton(groups, t[2..], k);
      assert t[1..][0] == t[1] && t[1..][1..] == t[2..];
      assert AfterHyphen(t[1..]);
    }
  }

  lemma {:induction false} AfterAlnumMeaning(t: Text)
    ensures AfterAlnum(t) <==> exists i :: 0 <= i <= |t| && AllAlnum(t[..i]) && Matches(HYPHEN_GROUPS, t[i..])
  {
    var groups := u => Matches(HYPHEN_GROUPS, u);
    forall u ensures UnfoldsAt(groups, u) {
      GroupsUnfold(u);
    }
    if AfterAlnum(t) {
      AutomatonSplits(groups, t);
      var i :| SplitAt(groups, t, i);
      assert AllAlnum(t[..i]) && Matches(HYPHEN_GROUPS, t[i..]);
    }
    if i :| 0 <= i <= |t| && AllAlnum(t[..i]) && Matches(HYPHEN_GROUPS, t[i..]) {
      SplitsAutomaton(groups, t, i);
    }
  }

  /** Both identifier languages: a first character from `head`, then the automaton. */
  lemma {:induction false} HeadedMeaning(head: seq<(char, char)>, t: Text)
    ensures Matches(Cat(Cat(Class(head), Star(Class(LETTER_OR_DIGIT))), HYPHEN_GROUPS), t)
       <==> t != [] && InClass(head, t[0]) && AfterAlnum(t[1..])
  {
    var first := Cat(Class(head), Star(Class(LETTER_OR_DIGIT)));
    if t != [] {
      AfterAlnumMeaning(t[1..]);
    }
    if t != [] && InClass(head, t[0]) && AfterAlnum(t[1..]) {
      var i :| 0 <= i <= |t[1..]| && AllAlnum(t[1..][..i]) && Matches(HYPHEN_GROUPS, t[1..][i..]);
      HeadThenAlnum(head, t[..i + 1]);
      assert t[..i + 1][1..] == t[1..][..i] && t[1..][i..] == t[i + 1..];
      assert Matches(first, t[..i + 1]) && Matches(HYPHEN_GROUPS, t[i + 1..]);
    }
    if Matches(Cat(first, HYPHEN_GROUPS), t) {
      var i :| 0 <= i <= |t| && Matches(first, t[..i]) && Matches(HYPHEN_GROUPS, t[i..]);
      HeadThenAlnum(head, t[..i]);
      assert t[..i][1..] == t[1..][..i - 1] && t[1..][i - 1..] == t[i..];
    }
  }

  lemma {:induction false} SlugMeaning(t: Text)
    ensures Matches(SLUG, t) <==> AfterHyphen(t)
  {
    HeadedMeaning(LETTER_OR_DIGIT, t);
    if t != [] { ClassMeanings(t[0]); }
  }

  lemma {:induction false} IdentifierMeaning(t: Text)
    ensures Matches(IDENTIFIER, t) <==> t != [] && IsLetter(t[0]) && AfterAlnum(t[1..])
  {
    HeadedMeaning(LETTER, t);
    if t != [] { ClassMeanings(t[0]); }
  }

  lemma {:induction false} AutomatonIsAscii(t: Text)
    requires AfterAlnum(t) || AfterHyphen(t)
    ensures Ascii(t) && forall i :: 0 <= i < |t| ==> !IsSpace(t[i])
  {
    if t != [] {
      AutomatonIsAscii(t[1..]);
    }
  }

  lemma {:induction false} NoSpaceIsTrimmed(t: Text)
    requires forall i :: 0 <= i < |t| ==> !IsSpace(t[i])
    ensures TrimSpace(t) == t
  {
  }

  /** Accepted texts are ASCII, so the byte bound and the trim test never reject more than
      the character bound does. */
  lemma {:induction false} PassesPrechecks(t: Text)
    requires AfterHyphen(t)
    ensures ByteLen(t) == |t| && TrimSpace(t) == t
  {
    AutomatonIsAscii(t);
    ByteLenBounds(t);
    NoSpaceIsTrimmed(t);
  }

  /** Accepts exactly the slugs the registry table allows. */
  method ValidSlug(slug: Text) returns (ok: bool)
    ensures ok <==> Bounded(SLUG, MAX_SLUG_CHARS, slug)
  {
    SlugMeaning(slug);
    if AfterHyphen(slug) { PassesPrechecks(slug); }
    ByteLenBounds(slug);
    if slug == [] || ByteLen(slug) > MAX_SLUG_CHARS || TrimSpace(slug) != slug {
      return false;
    }
    ok := ScanSlug(slug);
  }

  /** The previous-hyphen loop; `index` is the byte offset that `range` reports. */
  method ScanSlug(slug: Text) returns (ok: bool)
    requires slug != []
    ensures ok <==> AfterHyphen(slug)
  {
    var previousHyphen := false;
    var index := 0;
    for i := 0 to |slug|
      invariant i <= index && (i == 0 ==> index == 0 && !previousHyphen)
      invariant AfterHyphen(slug) <==> if i == 0 || previousHyphen then AfterHyphen(slug[i..]) else AfterAlnum(slug[i..])
    {
      assert slug[i..][0] == slug[i] && slug[i..][1..] == slug[i + 1..];
      var character := slug[i];
      if IsLetter(character) || IsDigit(character) {
        previousHyphen := false;
      } else {
        if !IsHyphen(character) || index == 0 || previousHyphen {
          return false;
        }
        previousHyphen := true;
      }
      index := index + Width(character);
    }
    return !previousHyphen;
  }

  /** Accepts exactly the lower-kebab identifiers up to `maximum` characters; with
      `firstMustBeLetter` unset, exactly the slugs up to that bound. */
  method ValidIdentifier(value: Text, maximum: int, firstMustBeLetter: bool) returns (ok: bool)
    ensures ok <==> Bounded(if firstMustBeLetter then IDENTIFIER else SLUG, maximum, value)
  {
    SlugMeaning(value);
    IdentifierMeaning(value);
    if AfterHyphen(value) { PassesPrechecks(value); }
    ByteLenBounds(value);
    if value == [] || ByteLen(value) > maximum || TrimSpace(value) != value {
      return false;
    }
    ok := ScanIdentifier(value, firstMustBeLetter);
  }

  method ScanIdentifier(value: Text, firstMustBeLetter: bool) returns (ok: bool)
    requires value != []
    ensures ok <==> AfterHyphen(value) && (firstMustBeLetter ==> IsLetter(value[0]))
  {
    var previousHyphen := false;
    var index := 0;
    for i := 0 to |value|
      invariant i <= index && (i == 0 ==> index == 0 && !previousHyphen)
      invariant i > 0 && firstMustBeLetter ==> IsLetter(value[0])
      invariant AfterHyphen(value) <==> if i == 0 || previousHyphen then AfterHyphen(value[i..]) else AfterAlnum(value[i..])
    {
      assert value[i..][0] == value[i] && value[i..][1..] == value[i + 1..];
      var character := value[i];
      if IsLetter(character) || (IsDigit(character) && (!firstMustBeLetter || index > 0)) {
        previousHyphen := false;
      } else {
        if !IsHyphen(character) || index == 0 || previousHyphen {
          return false;
        }
        previousHyphen := true;
      }
      index := index + Width(character);
    }
    return !previousHyphen;
  }

  /** Accepts exactly `[a-f0-9]{7,64}`. */
  method ValidRevision(revision: Text) returns (ok: bool)
    ensures ok <==> Matches(REVISION, revision)
  {
    RevisionMeaning(revision);
    ByteLenBounds(revision);
    if ByteLen(revision) < 7 || ByteLen(revision) > MAX_REVISION_CHARS {
      return false;
    }
    for i := 0 to |revision|
      invariant forall k :: 0 <= k < i ==> IsHexDigit(revision[k])
    {
      var character := RangeRune(revision[i]);
      if !(('a' <= character <= 'f') || ('0' <= character <= '9')) {
        return false;
      }
    }
    return true;
  }

  predicate IsHexDigit(g: Glyph) {
    'a' <= RangeRune(g) <= 'f' || '0' <= RangeRune(g) <= '9'
  }

  lemma {:induction false} RevisionMeaning(t: Text)
    ensures Matches(REVISION, t) <==> 7 <= |t| <= MAX_REVISION_CHARS && forall i :: 0 <= i < |t| ==> IsHexDigit(t[i])
    ensures (forall i :: 0 <= i < |t| ==> IsHexDigit(t[i])) ==> Ascii(t)
  {
    CopiesOfClass(HEX_DIGIT, |t|, t);
    assert HEX_DIGIT[0] == ('a', 'f') && HEX_DIGIT[1] == ('0', '9');
    forall n: nat | n != |t| ensures !Copies(Class(HEX_DIGIT), n, t) {
      CopiesOfClass(HEX_DIGIT, n, t);
    }
  }
}
