/**
 Deriving a memo id from a Twitter/X profile URL (twitter-memo variant).

 `extractUsernameFromUrl` tries the regular expression `twitter\.com\/([^\/\?]+)`
 and then `x\.com\/([^\/\?]+)`, both case-insensitive and unanchored, takes the
 captured path segment and removes its first `@`; `generateMemoId` lower-cases
 that. A regular-expression match is modelled directly: the leftmost index at
 which the host text occurs (ASCII case folding, which is all the `i` flag does
 for these characters) followed by at least one segment character, and the
 greedy segment that starts there.
 */
module MemoId {
  import opened Wrappers
  import opened Strings

  const TwitterHost: string := "twitter.com/"
  const XHost: string := "x.com/"

  /** A character of the capture group `[^\/\?]`. */
  predicate IsSegmentChar(c: char)
  {
    c != '/' && c != '?'
  }

  /** `host` (written in lower case) occurs at index `p` of `s`, ignoring ASCII case. */
  predicate HostAt(s: string, host: string, p: int)
  {
    0 <= p && p + |host| <= |s| && forall i :: 0 <= i < |host| ==> LowerChar(s[p + i]) == host[i]
  }

  /** The regular expression `host([^\/\?]+)` matches at index `p` of `s`. */
  predicate MatchesAt(s: string, host: string, p: int)
  {
    HostAt(s, host, p) && p + |host| < |s| && IsSegmentChar(s[p + |host|])
  }

  /** The leftmost match at or after `from`, as the regular-expression engine scans. */
  function FindMatch(s: string, host: string, from: nat): (r: Option<nat>)
    requires from <= |s|
    ensures r.Some? ==> from <= r.value && MatchesAt(s, host, r.value)
    ensures r.Some? ==> forall p :: from <= p < r.value ==> !MatchesAt(s, host, p)
    ensures r.None? ==> forall p :: from <= p ==> !MatchesAt(s, host, p)
    decreases |s| - from
  {
    if from == |s| then None
    else if MatchesAt(s, host, from) then Some(from)
    else FindMatch(s, host, from + 1)
  }

  /** The greedy run of segment characters starting at index `i`. */
  function SegmentFrom(s: string, i: nat): (r: string)
    requires i <= |s|
    ensures i + |r| <= |s| && r == s[i..i + |r|]
    ensures forall k :: 0 <= k < |r| ==> IsSegmentChar(r[k])
    ensures i + |r| == |s| || !IsSegmentChar(s[i + |r|])
    decreases |s| - i
  {
    if i == |s| || !IsSegmentChar(s[i]) then [] else [s[i]] + SegmentFrom(s, i + 1)
  }

  /** Either regular expression matches somewhere in `url`. */
  ghost predicate HasProfileMatch(url: string)
  {
    exists p :: MatchesAt(url, TwitterHost, p) || MatchesAt(url, XHost, p)
  }

  /** No character of `s` ends a path segment. */
  predicate IsSegment(s: string)
  {
    forall k :: 0 <= k < |s| ==> IsSegmentChar(s[k])
  }

  /** `url.match(/host([^\/\?]+)/i)`, giving the captured group. */
  function CaptureAfter(url: string, host: string): Option<string>
  {
    match FindMatch(url, host, 0)
    case None => None
    case Some(p) => Some(SegmentFrom(url, p + |host|))
  }

  /** `s.indexOf(c)`, with `|s|` standing for "not found". */
  function IndexOfChar(s: string, c: char): (i: nat)
    ensures i <= |s| && c !in s[..i]
    ensures i < |s| ==> s[i] == c
    ensures i == |s| <==> c !in s
  {
    if s == [] then 0
    else if s[0] == c then 0
    else
      var j := IndexOfChar(s[1..], c);
      assert s[..j + 1] == [s[0]] + s[1..][..j];
      j + 1
  }

  /** `s.replace(c, '')` with a one-character string pattern: only the first occurrence goes. */
  function RemoveFirst(s: string, c: char): (r: string)
    ensures forall k :: 0 <= k < |r| ==> r[k] in s
    ensures c !in s ==> r == s
    ensures c in s ==> exists i :: 0 <= i < |s| && s[i] == c && c !in s[..i] && r == s[..i] + s[i + 1..]
  {
    var i := IndexOfChar(s, c);
    if i == |s| then s
    else
      var r := s[..i] + s[i + 1..];
      assert forall k :: 0 <= k < |r| ==> r[k] == (if k < i then s[k] else s[k + 1]);
      r
  }

  /** `extractUsernameFromUrl`: the handle from a Twitter or X URL, or `""`. */
  function ExtractUsernameFromUrl(url: string): (r: string)
    ensures r != "" ==> HasProfileMatch(url)
    ensures IsSegment(r)
  {
    match CaptureAfter(url, TwitterHost)
    case Some(segment) => RemoveFirst(segment, '@')
    case None =>
      match CaptureAfter(url, XHost)
      case Some(segment) => RemoveFirst(segment, '@')
      case None => ""
  }

  /** `generateMemoId`: the lower-cased handle. */
  function GenerateMemoId(url: string): (r: string)
    ensures |r| == |ExtractUsernameFromUrl(url)|
  {
    ToLowerAscii(ExtractUsernameFromUrl(url))
  }

  /** A character Twitter allows in a handle. */
  predicate IsHandleChar(c: char)
  {
    ('a' <= c <= 'z') || ('A' <= c <= 'Z') || ('0' <= c <= '9') || c == '_'
  }

  predicate IsHandle(h: string)
  {
    h != [] && forall k :: 0 <= k < |h| ==> IsHandleChar(h[k])
  }

  /** Any URL with a username has a non-blank trimmed form, so the trim test in
      `saveMemo` never rejects a URL the username test accepts. */
  lemma UsernameImpliesUrlNotBlank(url: string)
    ensures ExtractUsernameFromUrl(url) != "" ==> Trim(url) != ""
  {
    if ExtractUsernameFromUrl(url) != "" {
      MatchedUrlNotBlank(url);
    }
  }

  /** A URL in which either pattern matches holds a host letter, which is not
      white space. */
  lemma MatchedUrlNotBlank(url: string)
    requires HasProfileMatch(url)
    ensures Trim(url) != ""
  {
    var p :| MatchesAt(url, TwitterHost, p) || MatchesAt(url, XHost, p);
    if MatchesAt(url, TwitterHost, p) {
      assert LowerChar(url[p]) == TwitterHost[0];
    } else {
      assert LowerChar(url[p]) == XHost[0];
    }
    TrimKeepsNonBlank(url, p);
  }

  /** Matching is blind to ASCII case in the URL. */
  lemma MatchesAtIgnoresCase(s: string, host: string, p: int)
    requires forall i :: 0 <= i < |host| ==> LowerChar(host[i]) == host[i]
    ensures MatchesAt(ToLowerAscii(s), host, p) <==> MatchesAt(s, host, p)
  {
  }

  /** The leftmost match depends only on where matches are. */
  lemma {:induction false} FindMatchSameMatches(s1: string, s2: string, host: string, from: nat)
    requires from <= |s1| == |s2|
    requires forall p :: from <= p ==> (MatchesAt(s1, host, p) <==> MatchesAt(s2, host, p))
    ensures FindMatch(s1, host, from) == FindMatch(s2, host, from)
    decreases |s1| - from
  {
    if from < |s1| {
      FindMatchSameMatches(s1, s2, host, from + 1);
    }
  }

  /** The leftmost match is the same in a string and its lower-cased form. */
  lemma FindMatchIgnoresCase(s: string, host: string, from: nat)
    requires from <= |s|
    requires forall i :: 0 <= i < |host| ==> LowerChar(host[i]) == host[i]
    ensures FindMatch(ToLowerAscii(s), host, from) == FindMatch(s, host, from)
  {
    forall p | from <= p ensures MatchesAt(ToLowerAscii(s), host, p) <==> MatchesAt(s, host, p) {
      MatchesAtIgnoresCase(s, host, p);
    }
    FindMatchSameMatches(ToLowerAscii(s), s, host, from);
  }

  lemma {:induction false} SegmentFromIgnoresCase(s: string, i: nat)
    requires i <= |s|
    ensures SegmentFrom(ToLowerAscii(s), i) == ToLowerAscii(SegmentFrom(s, i))
    decreases |s| - i
  {
    var t := ToLowerAscii(s);
    if i < |s| && IsSegmentChar(s[i]) {
      assert IsSegmentChar(t[i]);
      SegmentFromIgnoresCase(s, i + 1);
      var rest := SegmentFrom(s, i + 1);
      assert SegmentFrom(s, i) == [s[i]] + rest;
      assert SegmentFrom(t, i) == [t[i]] + SegmentFrom(t, i + 1);
      ToLowerAsciiCons(s[i], rest);
    } else if i < |s| {
      assert !IsSegmentChar(t[i]);
    }
  }

  lemma RemoveFirstIgnoresCase(s: string)
    ensures RemoveFirst(ToLowerAscii(s), '@') == ToLowerAscii(RemoveFirst(s, '@'))
  {
    var t := ToLowerAscii(s);
    var i, j := IndexOfChar(s, '@'), IndexOfChar(t, '@');
    assert forall k :: 0 <= k < |s| ==> (t[k] == '@' <==> s[k] == '@');
    if i < |s| {
      ToLowerAsciiSlice(s, 0, i);
      ToLowerAsciiSlice(s, i + 1, |s|);
      assert ToLowerAscii(s[..i] + s[i + 1..]) == t[..i] + t[i + 1..];
    }
  }

  /** The capture is the segment after the host at the leftmost match. */
  lemma CaptureAt(url: string, host: string, p: nat)
    requires FindMatch(url, host, 0) == Some(p)
    ensures p + |host| <= |url|
    ensures CaptureAfter(url, host) == Some(SegmentFrom(url, p + |host|))
  {
    assert MatchesAt(url, host, p);
  }

  /** Where the lower-cased URL has its leftmost match at the same index, its
      capture is the lower-cased segment after that index. */
  lemma LowerCaptureAtMatch(url: string, host: string, p: nat)
    requires FindMatch(url, host, 0) == Some(p)
    requires FindMatch(ToLowerAscii(url), host, 0) == Some(p)
    ensures p + |host| <= |url|
    ensures CaptureAfter(ToLowerAscii(url), host) == Some(ToLowerAscii(SegmentFrom(url, p + |host|)))
  {
    CaptureAt(url, host, p);
    CaptureAt(ToLowerAscii(url), host, p);
    SegmentFromIgnoresCase(url, p + |host|);
  }

  /** No match in the lower-cased URL, no capture. */
  lemma LowerCaptureNoMatch(url: string, host: string)
    requires FindMatch(ToLowerAscii(url), host, 0) == None
    ensures CaptureAfter(ToLowerAscii(url), host) == None
  {
  }

  /** The capture of a lower-cased URL is the lower-cased capture. */
  lemma CaptureAfterIgnoresCase(url: string, host: string)
    requires forall i :: 0 <= i < |host| ==> LowerChar(host[i]) == host[i]
    ensures CaptureAfter(ToLowerAscii(url), host).None? <==> CaptureAfter(url, host).None?
    ensures CaptureAfter(url, host).Some? ==>
      CaptureAfter(ToLowerAscii(url), host).value == ToLowerAscii(CaptureAfter(url, host).value)
  {
    FindMatchIgnoresCase(url, host, 0);
    match FindMatch(url, host, 0)
    case Some(p) =>
      CaptureAt(url, host, p);
      LowerCaptureAtMatch(url, host, p);
    case None =>
      LowerCaptureNoMatch(url, host);
  }

  /** The handle extracted from a URL lower-cases along with the URL. */
  lemma ExtractUsernameIgnoresCase(url: string)
    ensures ExtractUsernameFromUrl(ToLowerAscii(url)) == ToLowerAscii(ExtractUsernameFromUrl(url))
  {
    CaptureAfterIgnoresCase(url, TwitterHost);
    CaptureAfterIgnoresCase(url, XHost);
    match CaptureAfter(url, TwitterHost)
    case Some(segment) => RemoveFirstIgnoresCase(segment);
    case None =>
      match CaptureAfter(url, XHost)
      case Some(segment) => RemoveFirstIgnoresCase(segment);
      case None =>
  }

  /** URLs that differ only in ASCII case, such as a handle typed in capitals,
      give the same memo id. */
  lemma GenerateMemoIdIgnoresCase(u1: string, u2: string)
    requires ToLowerAscii(u1) == ToLowerAscii(u2)
    ensures GenerateMemoId(u1) == GenerateMemoId(u2)
  {
    ExtractUsernameIgnoresCase(u1);
    ExtractUsernameIgnoresCase(u2);
    ToLowerAsciiIdempotent(ExtractUsernameFromUrl(u1));
    ToLowerAsciiIdempotent(ExtractUsernameFromUrl(u2));
  }

  /** A segment that runs to the end of the string is taken whole. */
  lemma SegmentToEnd(s: string, i: nat)
    requires i <= |s|
    requires forall k :: i <= k < |s| ==> IsSegmentChar(s[k])
    ensures SegmentFrom(s, i) == s[i..]
  {
  }

  /** The canonical profile URL `https://x.com/<handle>`. */
  function XProfileUrl(handle: string): (r: string)
    ensures |r| == 14 + |handle| && r[14..] == handle
  {
    "https://x.com/" + handle
  }

  /** The canonical profile URL `https://twitter.com/<handle>`. */
  function TwitterProfileUrl(handle: string): (r: string)
    ensures |r| == 20 + |handle| && r[20..] == handle
  {
    "https://twitter.com/" + handle
  }

  /** In `https://x.com/<segment>` the `twitter.com/` pattern matches nowhere (the
      only slashes are too early for it), and the `x.com/` pattern first matches at
      the host and captures the whole segment. */
  lemma XProfileUrlCapture(segment: string)
    requires segment != [] && IsSegment(segment)
    ensures CaptureAfter(XProfileUrl(segment), TwitterHost).None?
    ensures CaptureAfter(XProfileUrl(segment), XHost) == Some(segment)
  {
    var prefix := "https://x.com/";
    var url := XProfileUrl(segment);
    assert url == prefix + segment;
    assert forall k :: 0 <= k < |prefix| ==> url[k] == prefix[k];
    assert forall k :: |prefix| <= k < |url| ==> url[k] == segment[k - |prefix|];
    forall p | 0 <= p && p + 11 < |url| ensures !MatchesAt(url, TwitterHost, p) {
      if p + 11 >= |prefix| {
        assert LowerChar(url[p + 11]) != TwitterHost[11];
      } else {
        assert LowerChar(url[p + 1]) != TwitterHost[1];
      }
    }
    assert FindMatch(url, TwitterHost, 0).None?;
    assert MatchesAt(url, XHost, 8);
    forall p | 0 <= p < 8 ensures !MatchesAt(url, XHost, p) {
      if p == 1 || p == 2 {
        assert LowerChar(url[p]) != XHost[0];
      } else {
        assert LowerChar(url[p + 5]) != XHost[5];
      }
    }
    assert FindMatch(url, XHost, 0) == Some(8);
    SegmentToEnd(url, 14);
  }

  /** In `https://twitter.com/<segment>` the `twitter.com/` pattern first matches
      at the host and captures the whole segment. */
  lemma TwitterProfileUrlCapture(segment: string)
    requires segment != [] && IsSegment(segment)
    ensures CaptureAfter(TwitterProfileUrl(segment), TwitterHost) == Some(segment)
  {
    var prefix := "https://twitter.com/";
    var url := TwitterProfileUrl(segment);
    assert url == prefix + segment;
    assert forall k :: 0 <= k < |prefix| ==> url[k] == prefix[k];
    assert forall k :: |prefix| <= k < |url| ==> url[k] == segment[k - |prefix|];
    assert MatchesAt(url, TwitterHost, 8);
    forall p | 0 <= p < 8 ensures !MatchesAt(url, TwitterHost, p) {
      assert LowerChar(url[p + 11]) != TwitterHost[11];
    }
    assert FindMatch(url, TwitterHost, 0) == Some(8);
    SegmentToEnd(url, 20);
  }

  /** A handle is a segment without `@`. */
  lemma HandleIsSegment(handle: string)
    requires IsHandle(handle)
    ensures IsSegment(handle) && '@' !in handle
  {
  }

  /** `https://x.com/<handle>` yields the handle as username and the lower-cased
      handle as id. */
  lemma MemoIdOfXProfileUrl(handle: string)
    requires IsHandle(handle)
    ensures ExtractUsernameFromUrl(XProfileUrl(handle)) == handle
    ensures GenerateMemoId(XProfileUrl(handle)) == ToLowerAscii(handle)
  {
    HandleIsSegment(handle);
    XProfileUrlCapture(handle);
  }

  /** `https://twitter.com/<handle>` yields the handle as username. */
  lemma ExtractFromTwitterProfileUrl(handle: string)
    requires IsHandle(handle)
    ensures ExtractUsernameFromUrl(TwitterProfileUrl(handle)) == handle
  {
    HandleIsSegment(handle);
    TwitterProfileUrlCapture(handle);
  }

  /** The two hosts' profile URLs of handles that differ only in case name the
      same memo. */
  lemma ProfileUrlsShareId(h1: string, h2: string)
    requires IsHandle(h1) && IsHandle(h2) && ToLowerAscii(h1) == ToLowerAscii(h2)
    ensures GenerateMemoId(TwitterProfileUrl(h1)) == GenerateMemoId(XProfileUrl(h2))
  {
    ExtractFromTwitterProfileUrl(h1);
    MemoIdOfXProfileUrl(h2);
  }

  /** A handle written with a leading `@` loses it: `x.com/@<handle>` names `<handle>`. */
  lemma ExtractDropsAt(handle: string)
    requires IsHandle(handle)
    ensures ExtractUsernameFromUrl(XProfileUrl("@" + handle)) == handle
  {
    var segment := "@" + handle;
    HandleIsSegment(handle);
    assert IsSegment(segment) by {
      assert forall k :: 1 <= k < |segment| ==> segment[k] == handle[k - 1];
    }
    XProfileUrlCapture(segment);
    assert IndexOfChar(segment, '@') == 0;
    assert segment[1..] == handle;
  }
}
