/** The two-letter badge `SelectTeamItem` shows for a team: the display name
    with all whitespace removed, cut to its first two characters and
    upper-cased, or "??" when there is no display name. Characters are
    restricted to ASCII. */
module SelectTeamItem {
  import opened Options

  /** A 7-bit ASCII character. */
  type AsciiChar = c: char | c as int < 128

  /** The ASCII characters the regular expression class `\s` matches: space,
      tab, line feed, vertical tab, form feed and carriage return. */
  predicate IsWhitespace(c: AsciiChar)
  {
    c == ' ' || c == '\t' || c == '\n' || c == '\U{0B}' || c == '\U{0C}' || c == '\r'
  }

  predicate IsLower(c: AsciiChar)
  {
    'a' <= c <= 'z'
  }

  /** `toUpperCase` on one ASCII character. */
  function ToUpper(c: AsciiChar): (u: AsciiChar)
    ensures !IsLower(u)
    ensures IsWhitespace(u) <==> IsWhitespace(c)
    ensures !IsLower(c) ==> u == c
    ensures IsLower(c) ==> u as int == c as int - 32
  {
    if IsLower(c) then (c as int - 32) as char else c
  }

  function UpperCase(s: seq<AsciiChar>): (r: seq<AsciiChar>)
    ensures |r| == |s|
    ensures forall i :: 0 <= i < |s| ==> r[i] == ToUpper(s[i])
  {
    if s == [] then [] else [ToUpper(s[0])] + UpperCase(s[1..])
  }

  predicate NoWhitespace(s: seq<AsciiChar>)
  {
    forall i :: 0 <= i < |s| ==> !IsWhitespace(s[i])
  }

  predicate AllWhitespace(s: seq<AsciiChar>)
  {
    forall i :: 0 <= i < |s| ==> IsWhitespace(s[i])
  }

  /** `replace(/\s/g, '')`: the non-whitespace characters, in order. The
      ensures below give only length, membership and the absence of
      whitespace; the order and multiplicity of the kept characters are fixed
      by `StripConcat` together with `StripExtremes`. */
  function StripWhitespace(s: seq<AsciiChar>): (r: seq<AsciiChar>)
    ensures |r| <= |s|
    ensures NoWhitespace(r)
    ensures forall c :: c in r ==> c in s
    ensures forall i :: 0 <= i < |s| && !IsWhitespace(s[i]) ==> s[i] in r
  {
    if s == [] then []
    else if IsWhitespace(s[0]) then StripWhitespace(s[1..])
    else [s[0]] + StripWhitespace(s[1..])
  }

  /** `substring(0, 2)`: at most the first two characters. */
  function FirstTwo(s: seq<AsciiChar>): (r: seq<AsciiChar>)
    ensures |r| == (if |s| <= 2 then |s| else 2)
    ensures r == s[..|r|]
  {
    if |s| <= 2 then s else s[..2]
  }

  /** The badge text. A missing or empty display name gives "??"; any other
      name gives at most two upper-case, non-whitespace characters. The
      truthiness test sees the name before whitespace is removed. */
  function Initials(displayName: Option<seq<AsciiChar>>): (r: seq<AsciiChar>)
    ensures displayName == None || displayName == Some([]) ==> r == "??"
    ensures displayName.Some? && displayName.value != [] ==>
              |r| <= 2 && NoWhitespace(r) && forall i :: 0 <= i < |r| ==> !IsLower(r[i])
  {
    match displayName
    case Some(name) =>
      if name != [] then UpperCase(FirstTwo(StripWhitespace(name))) else "??"
    case None => "??"
  }

  /** Removing whitespace distributes over concatenation. */
  lemma {:induction false} StripConcat(a: seq<AsciiChar>, b: seq<AsciiChar>)
    ensures StripWhitespace(a + b) == StripWhitespace(a) + StripWhitespace(b)
  {
    if a == [] {
      assert a + b == b;
    } else {
      assert (a + b)[1..] == a[1..] + b;
      StripConcat(a[1..], b);
    }
  }

  /** Whitespace alone strips to nothing, and a string without whitespace
      strips to itself. */
  lemma {:induction false} StripExtremes(s: seq<AsciiChar>)
    ensures AllWhitespace(s) ==> StripWhitespace(s) == []
    ensures NoWhitespace(s) ==> StripWhitespace(s) == s
  {
    if s != [] {
      StripExtremes(s[1..]);
      assert s == [s[0]] + s[1..];
    }
  }

  /** A non-empty name made only of whitespace passes the truthiness test and
      so gives the empty badge, not "??". */
  lemma BlankNameGivesEmptyBadge(name: seq<AsciiChar>)
    requires name != [] && AllWhitespace(name)
    ensures Initials(Some(name)) == []
  {
    StripExtremes(name);
  }

  /** The badge is the upper-cased first two non-whitespace characters of the
      name: whatever whitespace surrounds `c1` and `c2`, and whatever follows. */
  lemma FirstTwoNonWhitespace(a: seq<AsciiChar>, c1: AsciiChar, b: seq<AsciiChar>, c2: AsciiChar, rest: seq<AsciiChar>)
    requires AllWhitespace(a) && AllWhitespace(b)
    requires !IsWhitespace(c1) && !IsWhitespace(c2)
    ensures Initials(Some(a + [c1] + b + [c2] + rest)) == [ToUpper(c1), ToUpper(c2)]
  {
    StripExtremes(a);
    StripExtremes(b);
    StripConcat(a, [c1]);
    assert StripWhitespace(a + [c1]) == [c1];
    StripConcat(a + [c1], b);
    assert StripWhitespace(a + [c1] + b) == [c1];
    StripConcat(a + [c1] + b, [c2]);
    assert StripWhitespace(a + [c1] + b + [c2]) == [c1, c2];
    StripConcat(a + [c1] + b + [c2], rest);
    var stripped := StripWhitespace(a + [c1] + b + [c2] + rest);
    assert stripped == [c1, c2] + StripWhitespace(rest);
    assert FirstTwo(stripped) == [c1, c2];
  }

  /** A name with exactly one non-whitespace character gives a one-letter
      badge. */
  lemma SingleNonWhitespace(a: seq<AsciiChar>, c: AsciiChar, b: seq<AsciiChar>)
    requires AllWhitespace(a) && AllWhitespace(b)
    requires !IsWhitespace(c)
    ensures Initials(Some(a + [c] + b)) == [ToUpper(c)]
  {
    StripConcat(a + [c], b);
    StripConcat(a, [c]);
    StripExtremes(a);
    StripExtremes(b);
    StripExtremes([c]);
  }

  /** Inserting whitespace anywhere into a non-empty name does not change its
      badge. */
  lemma WhitespaceDoesNotMatter(a: seq<AsciiChar>, w: seq<AsciiChar>, b: seq<AsciiChar>)
    requires a + b != [] && AllWhitespace(w)
    ensures Initials(Some(a + w + b)) == Initials(Some(a + b))
  {
    StripConcat(a + w, b);
    StripConcat(a, w);
    StripConcat(a, b);
    StripExtremes(w);
    assert StripWhitespace(a + w) == StripWhitespace(a);
    assert StripWhitespace(a + w + b) == StripWhitespace(a + b);
    assert a + w + b != [] by { assert |a + w + b| >= |a + b|; }
    assert Initials(Some(a + w + b)) == UpperCase(FirstTwo(StripWhitespace(a + w + b)));
    assert Initials(Some(a + b)) == UpperCase(FirstTwo(StripWhitespace(a + b)));
  }

  /** A non-empty badge is its own badge: taking initials is idempotent. */
  lemma InitialsIdempotent(name: seq<AsciiChar>)
    requires Initials(Some(name)) != []
    ensures Initials(Some(Initials(Some(name)))) == Initials(Some(name))
  {
    var r := Initials(Some(name));
    StripExtremes(r);
    forall i | 0 <= i < |r|
      ensures ToUpper(r[i]) == r[i]
    {
    }
  }

}
