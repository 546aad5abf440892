/**
 * `extract_zoom_link`: find the leftmost Zoom meeting URL in a description and
 * rewrite it to the canonical `https://zoom.us/j/<id>[?pwd=<password>]`.
 *
 * The pattern is `https://(?:[\w-]+\.)?zoom\.us/(?:j|w|wc)/(\d+)(?:\?pwd=([a-zA-Z0-9.]+))?`.
 * The functions below match it the way a leftmost-first regex engine does: the
 * leftmost start wins, optional groups are tried present-first, and repetitions
 * are greedy.
 */
module ZoomLink {
  import opened Chars
  import opened Wrappers
  import opened Strings

  const Scheme: string := "https://"
  const Domain: string := "zoom.us/"
  const PasswordKey: string := "?pwd="
  const CanonicalPrefix: string := "https://zoom.us/j/"

  /** The two capture groups: the meeting id and the optional password. */
  datatype ZoomMatch = ZoomMatch(meetingId: string, password: Option<string>)

  /** A meeting id is one or more digits. */
  predicate IsMeetingId(id: string) {
    |id| >= 1 && AllIn(id, 0, |id|, Digit)
  }

  /** A password is one or more of `[a-zA-Z0-9.]`. */
  predicate IsPassword(p: string) {
    |p| >= 1 && AllIn(p, 0, |p|, PasswordChar)
  }

  predicate IsWellFormed(m: ZoomMatch) {
    IsMeetingId(m.meetingId) && (m.password.Some? ==> IsPassword(m.password.value))
  }

  // ----- Declarative description of where the pattern matches -----

  /** One of the paths `j/`, `w/`, `wc/` and then a digit, at the start of `t`. */
  ghost predicate PathAndDigitHere(t: string) {
    || ((StartsWith(t, "j/") || StartsWith(t, "w/")) && 2 < |t| && IsDigit(t[2]))
    || (StartsWith(t, "wc/") && 3 < |t| && IsDigit(t[3]))
  }

  /** `zoom.us/`, a path and a digit at the start of `t`. */
  ghost predicate DomainPathHere(t: string) {
    StartsWith(t, Domain) && PathAndDigitHere(t[|Domain|..])
  }

  /** A host label `[\w-]+` fills `t[..n]`, a dot follows it, and then the domain part. */
  ghost predicate LabelThenDomain(t: string, n: nat) {
    0 < n < |t| && t[n] == '.' && AllIn(t, 0, n, LabelChar) && DomainPathHere(t[n + 1..])
  }

  /** The optional `[\w-]+\.` group is present at the start of `t` and the rest of the pattern follows it. */
  ghost predicate LabelledDomainHere(t: string) {
    exists n: nat :: LabelThenDomain(t, n)
  }

  /** Some prefix of `t` matches the pattern. */
  ghost predicate PatternHere(t: string) {
    StartsWith(t, Scheme) && (DomainPathHere(t[|Scheme|..]) || LabelledDomainHere(t[|Scheme|..]))
  }

  /** Some substring starting at `i` matches the pattern. */
  ghost predicate PatternAt(s: string, i: nat) {
    i <= |s| && PatternHere(s[i..])
  }

  // ----- The matcher -----

  /** `(?:j|w|wc)/` at the start of `t`: its length, the alternatives tried in order. */
  function PathLength(t: string): (r: Option<nat>)
    ensures r.Some? ==> r.value <= |t|
    ensures r == Some(2) <==> StartsWith(t, "j/") || StartsWith(t, "w/")
    ensures r == Some(3) <==> StartsWith(t, "wc/")
    ensures r.None? <==> !StartsWith(t, "j/") && !StartsWith(t, "w/") && !StartsWith(t, "wc/")
  {
    if StartsWith(t, "j/") || StartsWith(t, "w/") then
      assert t[1] == t[..2][1] == '/';
      Some(2)
    else if StartsWith(t, "wc/") then Some(3)
    else None
  }

  /** `(?:\?pwd=([a-zA-Z0-9.]+))?` at the start of `t`: present when `?pwd=` is followed by a password character. */
  function PasswordHere(t: string): (r: Option<string>)
    ensures r.Some? <==> StartsWith(t, PasswordKey) && |PasswordKey| < |t| && IsPasswordChar(t[|PasswordKey|])
    ensures r.Some? ==> IsPassword(r.value)
  {
    if StartsWith(t, PasswordKey) && Span(t[|PasswordKey|..], PasswordChar) > 0 then
      var n := Span(t[|PasswordKey|..], PasswordChar);
      var p := t[|PasswordKey|..][..n];
      assert forall j :: 0 <= j < n ==> p[j] == t[|PasswordKey|..][j];
      Some(p)
    else None
  }

  /** `(\d+)` and the optional password at the start of `t`: the greedy digit run, then what follows it. */
  function IdAndPasswordHere(t: string): (r: Option<ZoomMatch>)
    ensures r.Some? <==> 0 < |t| && IsDigit(t[0])
    ensures r.Some? ==> IsWellFormed(r.value)
  {
    var n := Span(t, Digit);
    if n == 0 then None
    else
      var id := t[..n];
      assert forall j :: 0 <= j < n ==> id[j] == t[j];
      Some(ZoomMatch(id, PasswordHere(t[n..])))
  }

  /** The part of the pattern from `zoom\.us/` on, at the start of `t`. */
  function MatchFromDomain(t: string): (r: Option<ZoomMatch>)
    ensures r.Some? <==> DomainPathHere(t)
    ensures r.Some? ==> IsWellFormed(r.value)
  {
    if !StartsWith(t, Domain) then None
    else match PathLength(t[|Domain|..])
      case None => None
      case Some(k) => IdAndPasswordHere(t[|Domain|..][k..])
  }

  /** The optional `[\w-]+\.` group at the start of `t`: the greedy label run, its dot, and the domain part after it. */
  function LabelBranch(t: string): (r: Option<ZoomMatch>)
    ensures r.Some? <==> LabelledDomainHere(t)
    ensures r.Some? ==> IsWellFormed(r.value)
  {
    var n := Span(t, LabelChar);
    var r := if 0 < n < |t| && t[n] == '.' then MatchFromDomain(t[n + 1..]) else None;
    assert r.Some? ==> LabelThenDomain(t, n);
    assert LabelledDomainHere(t) ==> r.Some? by {
      forall d: nat | LabelThenDomain(t, d)
        ensures r.Some?
      {
        SpanExact(t, d, LabelChar);
      }
    }
    r
  }

  /** The whole pattern at the start of `t`: the host-label branch of the optional group first, then without it. */
  function MatchHere(t: string): (r: Option<ZoomMatch>)
    ensures r.Some? <==> PatternHere(t)
    ensures r.Some? ==> IsWellFormed(r.value)
  {
    if !StartsWith(t, Scheme) then None
    else if LabelBranch(t[|Scheme|..]).Some? then LabelBranch(t[|Scheme|..])
    else MatchFromDomain(t[|Scheme|..])
  }

  /** The leftmost index at or after `from` where the pattern matches. */
  function FindFrom(s: string, from: nat): (r: Option<nat>)
    requires from <= |s|
    ensures r.Some? ==> from <= r.value <= |s| && PatternAt(s, r.value)
    ensures r.Some? ==> forall j: nat :: from <= j < r.value ==> !PatternAt(s, j)
    ensures r.None? ==> forall j: nat :: from <= j <= |s| ==> !PatternAt(s, j)
    decreases |s| - from
  {
    if MatchHere(s[from..]).Some? then
      Some(from)
    else
      assert !PatternAt(s, from);
      if from == |s| then None
      else
        var r := FindFrom(s, from + 1);
        NoPatternBefore(s, from, r);
        r
  }

  /** No match at `from` and none from `from + 1` up to `r` (or the end): none from `from` either. */
  lemma NoPatternBefore(s: string, from: nat, r: Option<nat>)
    requires from < |s| && !PatternAt(s, from)
    requires r.Some? ==> from + 1 <= r.value && forall j: nat :: from + 1 <= j < r.value ==> !PatternAt(s, j)
    requires r.None? ==> forall j: nat :: from + 1 <= j <= |s| ==> !PatternAt(s, j)
    ensures r.Some? ==> forall j: nat :: from <= j < r.value ==> !PatternAt(s, j)
    ensures r.None? ==> forall j: nat :: from <= j <= |s| ==> !PatternAt(s, j)
  {
  }

  /** The canonical link built from the two captures. */
  function Canonical(m: ZoomMatch): (link: string)
    ensures StartsWith(link, CanonicalPrefix)
    ensures |CanonicalPrefix| + |m.meetingId| <= |link|
    ensures link[|CanonicalPrefix|..|CanonicalPrefix| + |m.meetingId|] == m.meetingId
    ensures m.password.None? <==> |link| == |CanonicalPrefix| + |m.meetingId|
  {
    match m.password
    case Some(p) => CanonicalPrefix + m.meetingId + PasswordKey + p
    case None => CanonicalPrefix + m.meetingId
  }

  /** What may follow the meeting id in a canonical link: nothing, or `?pwd=` and a password. */
  ghost predicate IsCanonicalTail(r: string) {
    r == [] || (StartsWith(r, PasswordKey) && |PasswordKey| < |r| && AllIn(r, |PasswordKey|, |r|, PasswordChar))
  }

  /**
   * The shape of every link `extract_zoom_link` returns: the canonical prefix, the
   * longest digit run after it (at least one digit), and then either the end or
   * `?pwd=` and one or more password characters up to the end.
   */
  ghost predicate IsCanonicalLink(t: string) {
    && StartsWith(t, CanonicalPrefix)
    && var n := Span(t[|CanonicalPrefix|..], Digit);
    && n >= 1
    && IsCanonicalTail(t[|CanonicalPrefix|..][n..])
  }

  lemma CanonicalShape(m: ZoomMatch)
    requires IsWellFormed(m)
    ensures IsCanonicalLink(Canonical(m))
  {
    var id := m.meetingId;
    var tail := match m.password case Some(p) => PasswordKey + p case None => "";
    assert Canonical(m) == CanonicalPrefix + (id + tail);
    CanonicalTailShape(m.password, tail);
    SpanOver(id, tail, Digit);
    assert (CanonicalPrefix + (id + tail))[|CanonicalPrefix|..] == id + tail;
    assert (id + tail)[|id|..] == tail;
  }

  lemma CanonicalTailShape(password: Option<string>, tail: string)
    requires password.Some? ==> IsPassword(password.value) && tail == PasswordKey + password.value
    requires password.None? ==> tail == ""
    ensures IsCanonicalTail(tail) && (tail == [] || !IsDigit(tail[0]))
  {
    if password.Some? {
      var p := password.value;
      assert tail[..|PasswordKey|] == PasswordKey;
      assert forall j :: |PasswordKey| <= j < |tail| ==> tail[j] == p[j - |PasswordKey|];
    }
  }

  /**
   * `extract_zoom_link`: None exactly when the pattern matches nowhere; otherwise the
   * canonical form of the leftmost match.
   */
  function ExtractZoomLink(description: string): (r: Option<string>)
    ensures r.None? <==> forall i: nat :: i <= |description| ==> !PatternAt(description, i)
    ensures r.Some? ==> IsCanonicalLink(r.value)
  {
    match FindFrom(description, 0)
    case None => None
    case Some(i) =>
      var m := MatchHere(description[i..]).value;
      CanonicalShape(m);
      Some(Canonical(m))
  }

  // ----- How the matcher reads a link -----

  /** A Zoom URL as it may be written: an optional host label, one of the three paths, an id and an optional password. */
  datatype ZoomUrl = ZoomUrl(hostLabel: Option<string>, path: string, meetingId: string, password: Option<string>)

  predicate IsValidUrl(u: ZoomUrl) {
    && (u.hostLabel.Some? ==> |u.hostLabel.value| >= 1 && AllIn(u.hostLabel.value, 0, |u.hostLabel.value|, LabelChar))
    && (u.path == "j" || u.path == "w" || u.path == "wc")
    && IsWellFormed(ZoomMatch(u.meetingId, u.password))
  }

  function PasswordPart(password: Option<string>): string {
    match password
    case Some(p) => PasswordKey + p
    case None => ""
  }

  /** The URL as text. */
  function Spell(u: ZoomUrl): string {
    match u.hostLabel
    case Some(l) => Scheme + l + "." + Domain + u.path + "/" + u.meetingId + PasswordPart(u.password)
    case None => Scheme + Domain + u.path + "/" + u.meetingId + PasswordPart(u.password)
  }

  /** The password part followed by `rest`, grouped from the right. */
  function PasswordThen(password: Option<string>, rest: string): string {
    match password
    case Some(p) => PasswordKey + (p + rest)
    case None => rest
  }

  /** The URL from `zoom.us/` on followed by `rest`, grouped from the right. */
  function DomainThen(u: ZoomUrl, rest: string): string {
    Domain + (u.path + ("/" + (u.meetingId + PasswordThen(u.password, rest))))
  }

  /** The URL followed by `rest`, grouped from the right. */
  function UrlThen(u: ZoomUrl, rest: string): string {
    match u.hostLabel
    case Some(l) => Scheme + (l + ("." + DomainThen(u, rest)))
    case None => Scheme + DomainThen(u, rest)
  }

  lemma SpellThen(u: ZoomUrl, rest: string)
    ensures Spell(u) + rest == UrlThen(u, rest)
  {
    var d := DomainThen(u, rest);
    var id := u.meetingId;
    assert PasswordPart(u.password) + rest == PasswordThen(u.password, rest);
    assert Domain + u.path + "/" + id + PasswordPart(u.password) + rest == d;
  }

  /**
   * What may follow a URL without extending it: not another digit of the id, not another
   * password character, and, when there is no password, not a `?pwd=` with a password.
   */
  predicate EndsMatch(u: ZoomUrl, rest: string) {
    && (u.password.None? ==> rest == [] || !IsDigit(rest[0]))
    && (u.password.Some? ==> rest == [] || !IsPasswordChar(rest[0]))
    && (u.password.None? ==> !(StartsWith(rest, PasswordKey) && |PasswordKey| < |rest| && IsPasswordChar(rest[|PasswordKey|])))
  }

  lemma ReadPresentPassword(p: string, rest: string)
    requires IsPassword(p) && (rest == [] || !IsPasswordChar(rest[0]))
    ensures PasswordHere(PasswordKey + (p + rest)) == Some(p)
  {
    var t := PasswordKey + (p + rest);
    assert t[..|PasswordKey|] == PasswordKey && t[|PasswordKey|..] == p + rest;
    SpanOver(p, rest, PasswordChar);
    assert (p + rest)[..|p|] == p;
  }

  lemma ReadPassword(u: ZoomUrl, rest: string)
    requires IsValidUrl(u) && EndsMatch(u, rest)
    ensures PasswordHere(PasswordThen(u.password, rest)) == u.password
  {
    if u.password.Some? {
      ReadPresentPassword(u.password.value, rest);
    }
  }

  /** What follows the meeting id cannot extend it: `?` starts the password part, and otherwise no digit follows. */
  lemma NoDigitAfterId(u: ZoomUrl, rest: string)
    requires EndsMatch(u, rest)
    ensures var tail := PasswordThen(u.password, rest); tail == [] || !IsDigit(tail[0])
  {
  }

  lemma ReadIdAndPassword(u: ZoomUrl, rest: string)
    requires IsValidUrl(u) && EndsMatch(u, rest)
    ensures IdAndPasswordHere(u.meetingId + PasswordThen(u.password, rest)) == Some(ZoomMatch(u.meetingId, u.password))
  {
    var id := u.meetingId;
    var tail := PasswordThen(u.password, rest);
    NoDigitAfterId(u, rest);
    SpanOver(id, tail, Digit);
    assert (id + tail)[..|id|] == id && (id + tail)[|id|..] == tail;
    ReadPassword(u, rest);
  }

  /** The path `j/`, `w/` or `wc/` is read to its slash. */
  lemma ReadPath(path: string, after: string)
    requires path == "j" || path == "w" || path == "wc"
    ensures PathLength(path + ("/" + after)) == Some(|path| + 1)
    ensures (path + ("/" + after))[|path| + 1..] == after
  {
    var t := path + ("/" + after);
    if path == "wc" {
      assert t[..3] == "wc/";
    } else {
      assert t[..2] == path + "/";
    }
    assert t[|path| + |"/"|..] == after;
  }

  lemma ReadFromDomain(u: ZoomUrl, rest: string)
    requires IsValidUrl(u) && EndsMatch(u, rest)
    ensures MatchFromDomain(DomainThen(u, rest)) == Some(ZoomMatch(u.meetingId, u.password))
  {
    var after := u.meetingId + PasswordThen(u.password, rest);
    var t := DomainThen(u, rest);
    assert t[..|Domain|] == Domain && t[|Domain|..] == u.path + ("/" + after);
    ReadPath(u.path, after);
    ReadIdAndPassword(u, rest);
  }

  /** A host label and its dot: the label branch reads the domain part after them. */
  lemma ReadLabel(l: string, u: ZoomUrl, rest: string)
    requires |l| >= 1 && AllIn(l, 0, |l|, LabelChar)
    requires IsValidUrl(u) && EndsMatch(u, rest)
    ensures LabelBranch(l + ("." + DomainThen(u, rest))) == Some(ZoomMatch(u.meetingId, u.password))
  {
    var d := DomainThen(u, rest);
    var t := l + ("." + d);
    SpanOver(l, "." + d, LabelChar);
    assert t[|l|] == '.';
    assert t[|l| + 1..] == d;
    LabelBranchAt(t, |l|);
    ReadFromDomain(u, rest);
  }

  /** When the label run ends at a dot, the label branch reads the domain part after that dot. */
  lemma LabelBranchAt(t: string, n: nat)
    requires Span(t, LabelChar) == n && 0 < n < |t| && t[n] == '.'
    ensures LabelBranch(t) == MatchFromDomain(t[n + 1..])
  {
  }

  /** Without a host label, `zoom` is taken for one, but `us/` after its dot is not `zoom.us/`. */
  lemma NoLabelBeforeDomain(u: ZoomUrl, rest: string)
    ensures LabelBranch(DomainThen(u, rest)).None?
  {
    var t := DomainThen(u, rest);
    assert t[..|Domain|] == Domain;
    var w := t[..|Domain|];
    assert t[0] == w[0] && t[1] == w[1] && t[2] == w[2] && t[3] == w[3] && t[4] == w[4] && t[5] == w[5];
    // `zoom` is a label run, and what follows its dot (`us/...`) does not start with `zoom.us/`.
    SpanExact(t, |"zoom"|, LabelChar);
    if |"zoom."| + |Domain| <= |t| {
      assert t[|"zoom."|..][..|Domain|][0] == t[|"zoom."|];
    }
  }

  /** The matcher reads a well-formed URL followed by text that does not extend it. */
  lemma ReadHere(u: ZoomUrl, rest: string)
    requires IsValidUrl(u) && EndsMatch(u, rest)
    ensures MatchHere(UrlThen(u, rest)) == Some(ZoomMatch(u.meetingId, u.password))
  {
    var t := UrlThen(u, rest);
    assert t[..|Scheme|] == Scheme;
    match u.hostLabel
    case Some(l) =>
      assert t[|Scheme|..] == l + ("." + DomainThen(u, rest));
      ReadLabel(l, u, rest);
    case None =>
      assert t[|Scheme|..] == DomainThen(u, rest);
      NoLabelBeforeDomain(u, rest);
      ReadFromDomain(u, rest);
  }

  // ----- What the matcher read -----

  /** The id-and-password reader consumed an id and its password part, and what it left does not extend them. */
  lemma IdAndPasswordSound(t: string, m: ZoomMatch) returns (rest: string)
    requires IdAndPasswordHere(t) == Some(m)
    ensures t == m.meetingId + PasswordThen(m.password, rest)
    ensures EndsMatch(ZoomUrl(None, "j", m.meetingId, m.password), rest)
  {
    var n := Span(t, Digit);
    var tail := t[n..];
    assert t == m.meetingId + tail;
    match m.password
    case None =>
      rest := tail;
    case Some(p) =>
      var after := tail[|PasswordKey|..];
      var k := Span(after, PasswordChar);
      assert p == after[..k];
      rest := after[k..];
      assert tail[..|PasswordKey|] == PasswordKey;
      assert tail == PasswordKey + (p + rest);
      assert rest == [] || rest[0] == after[k];
  }

  /** The reader from `zoom.us/` on consumed the domain, a path, and an id with its password part. */
  lemma DomainSound(d: string, m: ZoomMatch) returns (path: string, rest: string)
    requires MatchFromDomain(d) == Some(m)
    ensures path == "j" || path == "w" || path == "wc"
    ensures d == DomainThen(ZoomUrl(None, path, m.meetingId, m.password), rest)
    ensures EndsMatch(ZoomUrl(None, path, m.meetingId, m.password), rest)
  {
    var t := d[|Domain|..];
    var k := PathLength(t).value;
    if StartsWith(t, "j/") {
      path := "j";
    } else if StartsWith(t, "w/") {
      path := "w";
    } else {
      path := "wc";
    }
    var after := t[k..];
    assert t[..k] == path + "/";
    rest := IdAndPasswordSound(after, m);
    DomainParts(d, path, after);
  }

  /** `d` cut after `zoom.us/` and after the path's slash. */
  lemma DomainParts(d: string, path: string, after: string)
    requires StartsWith(d, Domain) && |path| + 1 <= |d| - |Domain|
    requires d[|Domain|..][..|path| + 1] == path + "/" && d[|Domain|..][|path| + 1..] == after
    ensures d == Domain + (path + ("/" + after))
  {
    var t := d[|Domain|..];
    assert t == t[..|path| + 1] + after;
    assert d == d[..|Domain|] + t;
  }

  /** The domain part read after an optional host label, as a URL with that label. */
  lemma UrlFromDomain(hostLabel: Option<string>, d: string, m: ZoomMatch) returns (u: ZoomUrl, rest: string)
    requires MatchFromDomain(d) == Some(m)
    requires hostLabel.Some? ==> |hostLabel.value| >= 1 && AllIn(hostLabel.value, 0, |hostLabel.value|, LabelChar)
    ensures u.hostLabel == hostLabel && IsValidUrl(u) && EndsMatch(u, rest)
    ensures d == DomainThen(u, rest) && m == ZoomMatch(u.meetingId, u.password)
  {
    var path;
    path, rest := DomainSound(d, m);
    u := ZoomUrl(hostLabel, path, m.meetingId, m.password);
  }

  /** What the host-label branch read: a label, its dot, and a URL's domain part. */
  lemma LabelledSound(t: string, m: ZoomMatch) returns (u: ZoomUrl, rest: string)
    requires LabelBranch(t) == Some(m)
    ensures u.hostLabel.Some? && IsValidUrl(u) && EndsMatch(u, rest)
    ensures t == u.hostLabel.value + ("." + DomainThen(u, rest)) && m == ZoomMatch(u.meetingId, u.password)
  {
    var n := Span(t, LabelChar);
    LabelBranchAt(t, n);
    var l := t[..n];
    assert AllIn(l, 0, |l|, LabelChar) by {
      forall j | 0 <= j < |l|
        ensures InClass(l[j], LabelChar)
      {
        assert l[j] == t[j];
      }
    }
    u, rest := UrlFromDomain(Some(l), t[n + 1..], m);
    DotParts(t, n);
  }

  /** `t` cut around the dot at `n`. */
  lemma DotParts(t: string, n: nat)
    requires n < |t| && t[n] == '.'
    ensures t == t[..n] + ("." + t[n + 1..])
  {
    assert t[n..] == "." + t[n + 1..];
    assert t == t[..n] + t[n..];
  }

  /**
   * Soundness, the converse of `ReadHere`: whatever the matcher reads is a well-formed URL
   * written at that position, followed by text that does not extend it, and the captures
   * are that URL's id and password.
   */
  lemma MatchSound(t: string, m: ZoomMatch)
    requires MatchHere(t) == Some(m)
    ensures exists u: ZoomUrl, rest: string ::
      IsValidUrl(u) && EndsMatch(u, rest) && t == UrlThen(u, rest) && m == ZoomMatch(u.meetingId, u.password)
  {
    var t1 := t[|Scheme|..];
    assert t == Scheme + t1;
    var u, rest;
    if LabelBranch(t1).Some? {
      u, rest := LabelledSound(t1, m);
    } else {
      u, rest := UrlFromDomain(None, t1, m);
    }
    assert t == UrlThen(u, rest);
  }

  /**
   * A link `extract_zoom_link` returns comes from a URL written in the description: the
   * description is some text, then a well-formed URL, then text that does not extend it,
   * and the link is that URL's id and password in canonical form.
   */
  lemma ExtractSound(s: string)
    requires ExtractZoomLink(s).Some?
    ensures exists i: nat, u: ZoomUrl, rest: string ::
      && i <= |s| && IsValidUrl(u) && EndsMatch(u, rest) && s[i..] == UrlThen(u, rest)
      && ExtractZoomLink(s) == Some(Canonical(ZoomMatch(u.meetingId, u.password)))
  {
    var i := FindFrom(s, 0).value;
    var m := MatchHere(s[i..]).value;
    MatchSound(s[i..], m);
  }

  /**
   * Normalisation: after text that cannot start a match (it has no `h`), a URL with any
   * host label and any of the three paths becomes `https://zoom.us/j/<id>`, keeping the
   * password; whatever follows the URL, further Zoom links included, is ignored.
   */
  lemma ExtractNormalises(pre: string, u: ZoomUrl, rest: string)
    requires AvoidsChars(pre, "h")
    requires IsValidUrl(u) && EndsMatch(u, rest)
    ensures ExtractZoomLink(pre + Spell(u) + rest) == Some(Canonical(ZoomMatch(u.meetingId, u.password)))
  {
    var s := pre + Spell(u) + rest;
    var i := |pre|;
    forall j: nat | j < i
      ensures !PatternAt(s, j)
    {
      assert s[j] == pre[j] && s[j] != 'h';
      NoMatchAtNonH(s, j);
    }
    SpellThen(u, rest);
    assert s[i..] == UrlThen(u, rest);
    ReadHere(u, rest);
    ExtractAt(s, i, ZoomMatch(u.meetingId, u.password));
  }

  /** A match starts with the `h` of `https://`. */
  lemma NoMatchAtNonH(s: string, j: nat)
    requires j < |s| && s[j] != 'h'
    ensures !PatternAt(s, j)
  {
    if j + |Scheme| <= |s| {
      assert s[j..][..|Scheme|][0] == s[j];
    }
  }

  /** A match at `i` with none before it is the one extracted. */
  lemma ExtractAt(s: string, i: nat, m: ZoomMatch)
    requires i <= |s| && MatchHere(s[i..]) == Some(m)
    requires forall j: nat :: j < i ==> !PatternAt(s, j)
    ensures ExtractZoomLink(s) == Some(Canonical(m))
  {
    assert PatternAt(s, i);
    var r := FindFrom(s, 0);
    assert r.Some? && r.value <= i;
    assert PatternAt(s, r.value);
  }

  /** A canonical link, with or without a password, is returned unchanged. */
  lemma CanonicalIsFixpoint(m: ZoomMatch)
    requires IsWellFormed(m)
    ensures ExtractZoomLink(Canonical(m)) == Some(Canonical(m))
  {
    var u := ZoomUrl(None, "j", m.meetingId, m.password);
    SpellCanonical(u);
    assert Canonical(m) == [] + Spell(u) + [];
    ExtractNormalises([], u, []);
  }

  /** Extracting from an extracted link changes nothing. */
  lemma ExtractIdempotent(description: string)
    requires ExtractZoomLink(description).Some?
    ensures ExtractZoomLink(ExtractZoomLink(description).value) == ExtractZoomLink(description)
  {
    var i := FindFrom(description, 0).value;
    CanonicalIsFixpoint(MatchHere(description[i..]).value);
  }

  /** Text without an `h` holds no `https://`, so nothing is extracted. */
  lemma NoSchemeNoLink(description: string)
    requires AvoidsChars(description, "h")
    ensures ExtractZoomLink(description) == None
  {
    forall i: nat | i <= |description|
      ensures !PatternAt(description, i)
    {
      if i < |description| {
        assert description[i] != 'h';
        NoMatchAtNonH(description, i);
      }
    }
  }

  /** A link without a host label on the `/j/` path is already canonical. */
  lemma SpellCanonical(u: ZoomUrl)
    requires u.hostLabel.None? && u.path == "j"
    ensures Spell(u) == Canonical(ZoomMatch(u.meetingId, u.password))
  {
    CanonicalPrefixSpelled();
    var id := u.meetingId;
    var rest := PasswordPart(u.password);
    assert Spell(u) == CanonicalPrefix + id + rest by {
      RegroupSpelling(Scheme, Domain, "j", "/", id, rest);
    }
    match u.password
    case Some(p) =>
      assert CanonicalPrefix + id + (PasswordKey + p) == CanonicalPrefix + id + PasswordKey + p;
    case None =>
      assert CanonicalPrefix + id + [] == CanonicalPrefix + id;
  }

  lemma CanonicalPrefixSpelled()
    ensures Scheme + Domain + "j" + "/" == CanonicalPrefix
  {
  }

  lemma RegroupSpelling(a: string, b: string, c: string, d: string, e: string, f: string)
    ensures a + (b + c + d + e + f) == a + b + c + d + e + f
  {
  }

  /** The link of the first documented example, in the four pieces the canonical form is built from. */
  const ExampleMeetingLink: string := "https://zoom.us/j/" + "95428352872" + "?pwd=" + "SYUHanJf8xXQR51lhTKI8u3RSDWLVF.1"

  const ExampleMeeting: ZoomMatch := ZoomMatch("95428352872", Some("SYUHanJf8xXQR51lhTKI8u3RSDWLVF.1"))

  lemma ExampleMeetingCanonical()
    ensures IsWellFormed(ExampleMeeting) && Canonical(ExampleMeeting) == ExampleMeetingLink
  {
  }

  /** First documented example: a canonical link with a password after some Japanese text comes back unchanged. */
  lemma ExampleMeetingUnchanged()
    ensures ExtractZoomLink("ミーティングリンク: " + ExampleMeetingLink) == Some(ExampleMeetingLink)
  {
    ExampleMeetingCanonical();
    var u := ZoomUrl(None, "j", ExampleMeeting.meetingId, ExampleMeeting.password);
    SpellCanonical(u);
    assert AvoidsChars("ミーティングリンク: ", "h");
    ExtractNormalises("ミーティングリンク: ", u, []);
    assert "ミーティングリンク: " + Spell(u) + [] == "ミーティングリンク: " + ExampleMeetingLink;
  }

  /** Second documented example: a description without a link. */
  lemma ExampleNoLink()
    ensures ExtractZoomLink("この文字列にはZoomリンクが含まれていません。") == None
  {
    NoSchemeNoLink("この文字列にはZoomリンクが含まれていません。");
  }

  /** The link of the third documented example, in the pieces a URL is written from. */
  const ExampleWebinarLink: string := "https://" + "us02" + "." + "zoom.us/" + "w" + "/" + "98765432100"
  const ExampleWebinar: ZoomUrl := ZoomUrl(Some("us02"), "w", "98765432100", None)

  lemma ExampleWebinarValid()
    ensures IsValidUrl(ExampleWebinar)
  {
  }

  lemma ExampleWebinarSpelled()
    ensures Spell(ExampleWebinar) == ExampleWebinarLink
    ensures Canonical(ZoomMatch(ExampleWebinar.meetingId, ExampleWebinar.password)) == "https://zoom.us/j/98765432100"
  {
  }

  /** Third documented example: a webinar link on a labelled host is normalised to `/j/`. */
  lemma ExampleWebinarNormalised()
    ensures ExtractZoomLink("ウェビナーに参加: " + ExampleWebinarLink) == Some("https://zoom.us/j/98765432100")
  {
    ExampleWebinarValid();
    ExampleWebinarSpelled();
    ExtractNormalises("ウェビナーに参加: ", ExampleWebinar, []);
    assert "ウェビナーに参加: " + ExampleWebinarLink == "ウェビナーに参加: " + Spell(ExampleWebinar) + [];
  }
}
