/**
 * Email helpers (server/utils/email.ts): the address check and the
 * magic-link message.  Delivery itself is an outside capability.
 */
module Email {
  import opened Wrappers
  import opened JsString
  import Http

  /** `[^\s@]`: neither whitespace nor '@'. */
  predicate Plain(c: char) {
    !IsWhitespace(c) && c != '@'
  }

  predicate AllPlain(s: string) {
    forall k :: 0 <= k < |s| ==> Plain(s[k])
  }

  /** `[^\s.@]*`. */
  predicate AllPlainNoDot(s: string) {
    forall k :: 0 <= k < |s| ==> Plain(s[k]) && s[k] != '.'
  }

  /** The pattern `^[^\s@]+@[^\s@][^\s.@]*\.[^\s@]+$` matched with '@' at
      index `at` and the literal dot at index `dot`. */
  ghost predicate RegexMatchAt(s: string, at: int, dot: int) {
    && 0 < at && at + 2 <= dot && dot + 1 < |s|
    && s[at] == '@' && s[dot] == '.'
    && AllPlain(s[..at]) && Plain(s[at + 1]) && AllPlainNoDot(s[at + 2..dot]) && AllPlain(s[dot + 1..])
  }

  ghost predicate MatchesEmailRegex(s: string) {
    exists at, dot :: RegexMatchAt(s, at, dot)
  }

  /** The part after '@': no whitespace or '@', and a '.' somewhere after
      its first character that is followed by at least one character. */
  predicate ValidDomain(d: string) {
    && d != [] && AllPlain(d)
    && match IndexOf(d[1..], '.')
       case None => false
       case Some(i) => i + 2 < |d|
  }

  /** `isValidEmail`, written out as a scan instead of a regular expression. */
  predicate IsValidEmail(s: string) {
    match IndexOf(s, '@')
    case None => false
    case Some(at) => 0 < at && AllPlain(s[..at]) && ValidDomain(s[at + 1..])
  }

  /** The scan accepts exactly the strings the regular expression matches. */
  lemma IsValidEmailMatchesRegex(s: string)
    ensures IsValidEmail(s) <==> MatchesEmailRegex(s)
  {
    if IsValidEmail(s) {
      ScanMatches(s);
    }
    if MatchesEmailRegex(s) {
      var at, dot :| RegexMatchAt(s, at, dot);
      MatchScans(s, at, dot);
    }
  }

  lemma ScanMatches(s: string)
    requires IsValidEmail(s)
    ensures MatchesEmailRegex(s)
  {
    var at := IndexOf(s, '@').value;
    var d := s[at + 1..];
    var i := IndexOf(d[1..], '.').value;
    var dot := at + 2 + i;
    assert s[dot] == d[1..][i];
    assert s[at + 2..dot] == d[1..][..i];
    assert s[dot + 1..] == d[i + 2..];
    assert RegexMatchAt(s, at, dot);
  }

  lemma MatchScans(s: string, at: int, dot: int)
    requires RegexMatchAt(s, at, dot)
    ensures IsValidEmail(s)
  {
    FirstOccurrence(s, '@', at);
    var d := s[at + 1..];
    MatchedDomainPlain(s, at, dot);
    assert d[1..][dot - at - 2] == '.';
    assert forall k :: 0 <= k < dot - at - 2 ==> d[1..][k] == s[at + 2..dot][k];
    FirstOccurrence(d[1..], '.', dot - at - 2);
  }

  /** The domain of a match is made of plain characters. */
  lemma MatchedDomainPlain(s: string, at: int, dot: int)
    requires RegexMatchAt(s, at, dot)
    ensures AllPlain(s[at + 1..])
  {
    var d := s[at + 1..];
    forall k | 0 <= k < |d| ensures Plain(d[k]) {
      if k == 0 {
      } else if k < dot - at - 1 {
        assert d[k] == s[at + 2..dot][k - 1];
      } else if k == dot - at - 1 {
      } else {
        assert d[k] == s[dot + 1..][k - (dot - at)];
      }
    }
  }

  /** IndexOf finds position `k` when `c` sits there and nowhere before. */
  lemma FirstOccurrence(s: string, c: char, k: nat)
    requires k < |s| && s[k] == c && forall j :: 0 <= j < k ==> s[j] != c
    ensures IndexOf(s, c) == Some(k)
  {
  }

  /** An accepted address has no whitespace at all and exactly one '@',
      which has something before it. */
  lemma ValidEmailShape(s: string)
    requires IsValidEmail(s)
    ensures forall k :: 0 <= k < |s| ==> !IsWhitespace(s[k])
    ensures exists at :: 0 < at < |s| && s[at] == '@' && forall k :: 0 <= k < |s| && s[k] == '@' ==> k == at
  {
    var at := IndexOf(s, '@').value;
    var d := s[at + 1..];
    forall k | 0 <= k < |s| ensures !IsWhitespace(s[k]) && (s[k] == '@' ==> k == at) {
      if k < at {
        assert s[k] == s[..at][k];
      } else if k > at {
        assert s[k] == d[k - at - 1];
      }
    }
  }

  /** Lower-case letters and '.' are plain characters. */
  lemma LowerOrDotPlain(s: string)
    requires forall k :: 0 <= k < |s| ==> 'a' <= s[k] <= 'z' || s[k] == '.'
    ensures AllPlain(s)
  {
  }

  /** The address used by the end-to-end login test is accepted. */
  lemma SampleAddressAccepted(local: string, domain: string)
    requires local == "test" && domain == "example.com"
    ensures IsValidEmail(local + "@" + domain)
  {
    var s := local + "@" + domain;
    assert s[..4] == local && s[4] == '@';
    assert s[5..] == domain;
    LowerOrDotPlain(local);
    LowerOrDotPlain(domain);
    FirstOccurrence(s, '@', 4);
    FirstOccurrence(domain[1..], '.', 6);
  }

  const VerifyPath := "/auth/verify?token="
  const DefaultPublicUrl := "http://localhost:5173"

  /** The link in the message: the base URL, the verify path, the token,
      with no encoding of the token. */
  function MagicLinkUrl(baseUrl: string, token: string): (url: string)
    ensures |url| == |baseUrl| + |VerifyPath| + |token|
    ensures url[..|baseUrl|] == baseUrl
    ensures url[|baseUrl|..|baseUrl| + |VerifyPath|] == VerifyPath
    ensures url[|baseUrl| + |VerifyPath|..] == token
  {
    baseUrl + VerifyPath + token
  }

  /** A string framed as pre + open + url + close + url + post holds `url`
      right after `open` and again right after `close`. */
  lemma LinkAppearsTwice(pre: string, open: string, url: string, close: string, post: string)
    ensures var html := pre + open + url + close + url + post;
            var hrefAt := |pre| + |open|;
            var textAt := hrefAt + |url| + |close|;
            && |html| == textAt + |url| + |post|
            && html[|pre|..hrefAt] == open
            && html[hrefAt..hrefAt + |url|] == url
            && html[textAt..textAt + |url|] == url
  {
    var html := pre + open + url + close + url + post;
    assert html == (pre + open) + (url + (close + (url + post)));
    assert html == (pre + open + url + close) + (url + post);
  }

  /** The static markup around the link: the document head with its styles,
      the greeting, the warning list and the footer.  Their exact text is not
      part of this model; the fragments that frame the link are. */
  const Preamble := "<!DOCTYPE html><html><head>...</head><body><div class=\"container\"><h1>...</h1><p>...</p><p>...</p>"
  const ButtonOpen := "<a href=\""
  const ButtonClose := "\" class=\"button\">...</a><p>...</p><p style=\"...\">"
  const Closing := "</p><div class=\"warning\">...</div><div class=\"footer\">...</div></div></body></html>"

  /** `generateMagicLinkEmail`: the verify link appears as the button's
      href and again as plain text.  The email address is not used. */
  function GenerateMagicLinkEmail(email: string, token: string, baseUrl: string): (html: string)
    ensures var url := MagicLinkUrl(baseUrl, token);
            var hrefAt := |Preamble| + |ButtonOpen|;
            var textAt := hrefAt + |url| + |ButtonClose|;
            && |html| == textAt + |url| + |Closing|
            && html[hrefAt - |ButtonOpen|..hrefAt] == ButtonOpen
            && html[hrefAt..hrefAt + |url|] == url
            && html[textAt..textAt + |url|] == url
  {
    var url := MagicLinkUrl(baseUrl, token);
    LinkAppearsTwice(Preamble, ButtonOpen, url, ButtonClose, Closing);
    Preamble + ButtonOpen + url + ButtonClose + url + Closing
  }

  /** A message as `sendEmail` receives it. */
  datatype OutgoingEmail = OutgoingEmail(to: string, subject: string, html: string, from: string)

  const DefaultFrom := "noreply@flow.liangkaifeng.com"
  const MagicLinkSubject := "登录验证 - CapitalFlow"

  /** The message `sendMagicLink` hands to `sendEmail`: addressed to the
      user, with the fixed subject and sender, and a body whose link points
      at PUBLIC_URL (or the local development address when it is unset). */
  function MagicLinkMessage(email: string, token: string, publicUrl: Option<string>): (m: OutgoingEmail)
    ensures m.to == email && m.subject == MagicLinkSubject && m.from == DefaultFrom
    ensures var url := MagicLinkUrl(Http.EnvOr(publicUrl, DefaultPublicUrl), token);
            var hrefAt := |Preamble| + |ButtonOpen|;
            |m.html| >= hrefAt + |url| && m.html[hrefAt..hrefAt + |url|] == url
  {
    OutgoingEmail(email, MagicLinkSubject, GenerateMagicLinkEmail(email, token, Http.EnvOr(publicUrl, DefaultPublicUrl)), DefaultFrom)
  }
}
