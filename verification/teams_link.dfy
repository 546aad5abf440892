/**
 * `extract_teams_link`: find the leftmost Microsoft Teams meeting URL in a
 * description and return it as written.
 *
 * The pattern is `https://teams\.microsoft\.com/l/meetup-join/[^\s]+`: a fixed
 * prefix and then the longest run of non-whitespace characters (at least one).
 */
module TeamsLink {
  import opened Chars
  import opened Wrappers
  import opened Strings

  const MeetupPrefix: string := "https://teams.microsoft.com/l/meetup-join/"

  /** A match begins at the start of `t`: the prefix and then at least one non-whitespace character. */
  ghost predicate LinkHere(t: string) {
    StartsWith(t, MeetupPrefix) && |MeetupPrefix| < |t| && !IsWhitespace(t[|MeetupPrefix|])
  }

  ghost predicate LinkAt(s: string, i: nat) {
    i <= |s| && LinkHere(s[i..])
  }

  /** A whole Teams link: the prefix and one or more non-whitespace characters, nothing else. */
  ghost predicate IsTeamsLink(t: string) {
    StartsWith(t, MeetupPrefix) && |MeetupPrefix| < |t| && AllIn(t, |MeetupPrefix|, |t|, NonWhitespace)
  }

  lemma PrefixHasNoWhitespace()
    ensures NoWhitespace(MeetupPrefix)
  {
  }

  /** A Teams link holds no whitespace at all. */
  lemma TeamsLinkHasNoWhitespace(t: string)
    requires IsTeamsLink(t)
    ensures NoWhitespace(t)
  {
    PrefixHasNoWhitespace();
    forall k | 0 <= k < |MeetupPrefix|
      ensures !IsWhitespace(t[k])
    {
      assert t[k] == t[..|MeetupPrefix|][k];
    }
  }

  /** The length of the match at the start of `t`: the prefix and the greedy `[^\s]+` run after it. */
  function MatchLength(t: string): (r: Option<nat>)
    ensures r.Some? <==> LinkHere(t)
    ensures r.Some? ==> |MeetupPrefix| < r.value <= |t|
    ensures r.Some? ==> AllIn(t, |MeetupPrefix|, r.value, NonWhitespace)
    ensures r.Some? ==> r.value == |t| || IsWhitespace(t[r.value])
  {
    if StartsWith(t, MeetupPrefix) && Span(t[|MeetupPrefix|..], NonWhitespace) > 0 then
      var n := Span(t[|MeetupPrefix|..], NonWhitespace);
      assert forall j :: |MeetupPrefix| <= j < |MeetupPrefix| + n ==> t[j] == t[|MeetupPrefix|..][j - |MeetupPrefix|];
      Some(|MeetupPrefix| + n)
    else None
  }

  /** The leftmost index at or after `from` where a link starts. */
  function FirstLinkFrom(s: string, from: nat): (r: Option<nat>)
    requires from <= |s|
    ensures r.Some? ==> from <= r.value <= |s| && LinkAt(s, r.value)
    ensures r.Some? ==> forall j: nat :: from <= j < r.value ==> !LinkAt(s, j)
    ensures r.None? ==> forall j: nat :: from <= j <= |s| ==> !LinkAt(s, j)
    decreases |s| - from
  {
    if MatchLength(s[from..]).Some? then Some(from)
    else if from == |s| then None
    else
      assert !LinkAt(s, from);
      FirstLinkFrom(s, from + 1)
  }

  /**
   * `extract_teams_link`: None exactly when no link starts anywhere; otherwise the text
   * of the leftmost link, which runs up to the next whitespace or the end.
   */
  function ExtractTeamsLink(description: string): (r: Option<string>)
    ensures r.None? <==> forall i: nat :: i <= |description| ==> !LinkAt(description, i)
    ensures r.Some? ==> IsTeamsLink(r.value)
    ensures r.Some? ==> exists i: nat :: FoundAt(description, i, r.value)
  {
    match FirstLinkFrom(description, 0)
    case None => None
    case Some(i) =>
      var n := MatchLength(description[i..]).value;
      FirstLinkFound(description, i, n);
      Some(description[i..i + n])
  }

  /**
   * `link` is the leftmost match in `s`, at `i`: a link starts there and nowhere before,
   * and `link` runs from `i` up to the next whitespace or the end.
   */
  ghost predicate FoundAt(s: string, i: nat, link: string) {
    && LinkAt(s, i)
    && (forall j: nat :: j < i ==> !LinkAt(s, j))
    && i + |link| <= |s|
    && s[i..i + |link|] == link
    && (i + |link| == |s| || IsWhitespace(s[i + |link|]))
  }

  lemma FirstLinkFound(s: string, i: nat, n: nat)
    requires i <= |s| && LinkAt(s, i) && (forall j: nat :: j < i ==> !LinkAt(s, j))
    requires MatchLength(s[i..]) == Some(n)
    ensures i + n <= |s| && IsTeamsLink(s[i..i + n]) && FoundAt(s, i, s[i..i + n])
  {
    LinkShape(s, i, n);
  }

  lemma LinkShape(s: string, i: nat, n: nat)
    requires i <= |s| && MatchLength(s[i..]) == Some(n)
    ensures i + n <= |s| && IsTeamsLink(s[i..i + n])
    ensures i + n == |s| || IsWhitespace(s[i + n])
  {
    var t := s[i..];
    var link := s[i..i + n];
    assert link == t[..n];
    assert link[..|MeetupPrefix|] == t[..|MeetupPrefix|];
    forall k | |MeetupPrefix| <= k < n
      ensures !IsWhitespace(link[k])
    {
      assert link[k] == t[k];
    }
    if i + n < |s| {
      assert s[i + n] == t[n];
    }
  }

  // ----- How the extractor reads a link -----

  /** A link is read to its end when whitespace or nothing follows it. */
  lemma ReadHere(link: string, rest: string)
    requires IsTeamsLink(link) && (rest == [] || IsWhitespace(rest[0]))
    ensures MatchLength(link + rest) == Some(|link|)
  {
    var t := link + rest;
    assert t[..|MeetupPrefix|] == link[..|MeetupPrefix|];
    var body := link[|MeetupPrefix|..];
    assert forall k :: 0 <= k < |body| ==> body[k] == link[|MeetupPrefix| + k];
    assert t[|MeetupPrefix|..] == body + rest;
    SpanOver(body, rest, NonWhitespace);
  }

  /** A link starts with the `h` of `https://`. */
  lemma NoLinkAtNonH(s: string, j: nat)
    requires j < |s| && s[j] != 'h'
    ensures !LinkAt(s, j)
  {
    if j + |MeetupPrefix| <= |s| {
      assert s[j..][..|MeetupPrefix|][0] == s[j];
    }
  }

  /**
   * After text that cannot start a link (it has no `h`), a link followed by whitespace
   * or the end is returned exactly; whatever follows is ignored.
   */
  lemma ExtractFinds(pre: string, link: string, rest: string)
    requires AvoidsChars(pre, "h")
    requires IsTeamsLink(link) && (rest == [] || IsWhitespace(rest[0]))
    ensures ExtractTeamsLink(pre + link + rest) == Some(link)
  {
    var s := pre + link + rest;
    var i := |pre|;
    forall j: nat | j < i
      ensures !LinkAt(s, j)
    {
      assert s[j] == pre[j] && s[j] != 'h';
      NoLinkAtNonH(s, j);
    }
    assert s[i..] == link + rest;
    ReadHere(link, rest);
    assert LinkAt(s, i);
    var r := FirstLinkFrom(s, 0);
    assert r.Some? && r.value <= i;
    assert LinkAt(s, r.value);
    assert (link + rest)[..|link|] == link;
  }

  /** A returned link is returned again, unchanged. */
  lemma ExtractIdempotent(description: string)
    requires ExtractTeamsLink(description).Some?
    ensures ExtractTeamsLink(ExtractTeamsLink(description).value) == ExtractTeamsLink(description)
  {
    var link := ExtractTeamsLink(description).value;
    assert [] + link + [] == link;
    ExtractFinds([], link, []);
  }

  /** Text without an `h` holds no link. */
  lemma NoSchemeNoLink(description: string)
    requires AvoidsChars(description, "h")
    ensures ExtractTeamsLink(description) == None
  {
    forall i: nat | i <= |description|
      ensures !LinkAt(description, i)
    {
      if i < |description| {
        assert description[i] != 'h';
        NoLinkAtNonH(description, i);
      }
    }
  }

  /** The link of the first documented example. */
  const ExampleLink: string := MeetupPrefix + "19%3ameeting_ABC123..."

  lemma ExampleLinkShape()
    ensures IsTeamsLink(ExampleLink)
  {
    assert ExampleLink[..|MeetupPrefix|] == MeetupPrefix;
    forall k | |MeetupPrefix| <= k < |ExampleLink|
      ensures !IsWhitespace(ExampleLink[k])
    {
      assert ExampleLink[k] == "19%3ameeting_ABC123..."[k - |MeetupPrefix|];
    }
  }

  /** First documented example: a link after some Japanese text is returned as written. */
  lemma ExampleMeetingLink()
    ensures ExtractTeamsLink("ミーティングリンク: " + ExampleLink) == Some(ExampleLink)
  {
    ExampleLinkShape();
    assert AvoidsChars("ミーティングリンク: ", "h");
    ExtractFinds("ミーティングリンク: ", ExampleLink, []);
    assert "ミーティングリンク: " + ExampleLink + [] == "ミーティングリンク: " + ExampleLink;
  }

  /** Second documented example: a description without a link. */
  lemma ExampleNoLink()
    ensures ExtractTeamsLink("この文字列にはTeamsリンクが含まれていません。") == None
  {
    NoSchemeNoLink("この文字列にはTeamsリンクが含まれていません。");
  }
}
