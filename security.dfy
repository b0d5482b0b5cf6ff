/** frontend/src/utils/security.js: the HTML-escaping sanitiser, the e-mail shape
    check, token expiry, the auto-logout check and the per-key rate limiter. */
module Security {
  import opened Wrappers
  import opened Text
  import opened Browser

  // ---------------------------------------------------------------------------
  // sanitizeInput

  /** A JavaScript argument: a string, or any other value (number, object, null, ...). */
  datatype JsValue = JsString(s: string) | NonString(tag: int)

  /** The entity each special character is written as; every other character stands for itself. */
  function Entity(c: char): (e: string)
    ensures |e| >= 1
  {
    match c
    case '&' => "&amp;"
    case '<' => "&lt;"
    case '>' => "&gt;"
    case '"' => "&quot;"
    case '\'' => "&#x27;"
    case '/' => "&#x2F;"
    case _ => [c]
  }

  predicate IsSpecial(c: char) {
    c == '<' || c == '>' || c == '"' || c == '\'' || c == '/'
  }

  /** The escaping as one pass over the characters. */
  function Escape(s: string): (r: string)
    ensures |r| >= |s|
    ensures forall i :: 0 <= i < |r| ==> !IsSpecial(r[i])
    ensures (forall i :: 0 <= i < |s| ==> !IsSpecial(s[i]) && s[i] != '&') ==> r == s
  {
    if s == [] then []
    else
      var e, rest := Entity(s[0]), Escape(s[1..]);
      EntityIsPlain(s[0]);
      assert forall i :: |e| <= i < |e + rest| ==> (e + rest)[i] == rest[i - |e|];
      e + rest
  }

  /** No entity holds a character that must be escaped. */
  lemma EntityIsPlain(c: char)
    ensures forall i :: 0 <= i < |Entity(c)| ==> !IsSpecial(Entity(c)[i])
    ensures !IsSpecial(c) && c != '&' ==> Entity(c) == [c]
  {
  }

  /** `s.replace(/c/g, rep)`: every occurrence of the character `c` replaced. */
  function ReplaceAll(s: string, c: char, rep: string): string {
    if s == [] then [] else (if s[0] == c then rep else [s[0]]) + ReplaceAll(s[1..], c, rep)
  }

  /** The six replacements of `sanitizeInput`, in the order it applies them. */
  const Rules: seq<(char, string)> := [
    ('&', "&amp;"), ('<', "&lt;"), ('>', "&gt;"), ('"', "&quot;"), ('\'', "&#x27;"), ('/', "&#x2F;")]

  /** The replacements applied one after the other, each to the whole output of the
      one before. */
  function ApplyRules(s: string, rules: seq<(char, string)>): string
    decreases |rules|
  {
    if rules == [] then s else ApplyRules(ReplaceAll(s, rules[0].0, rules[0].1), rules[1..])
  }

  /** `input.replace(/&/g, ...).replace(/</g, ...)...` as the source chains it. */
  function ChainedReplace(s: string): string {
    ApplyRules(s, Rules)
  }

  lemma {:induction false} ReplaceAllAppend(a: string, b: string, c: char, rep: string)
    ensures ReplaceAll(a + b, c, rep) == ReplaceAll(a, c, rep) + ReplaceAll(b, c, rep)
  {
    if a == [] {
      assert a + b == b;
    } else {
      assert (a + b)[0] == a[0] && (a + b)[1..] == a[1..] + b;
      ReplaceAllAppend(a[1..], b, c, rep);
      var h := if a[0] == c then rep else [a[0]];
      calc {
        ReplaceAll(a + b, c, rep);
        h + ReplaceAll(a[1..] + b, c, rep);
        h + (ReplaceAll(a[1..], c, rep) + ReplaceAll(b, c, rep));
        (h + ReplaceAll(a[1..], c, rep)) + ReplaceAll(b, c, rep);
      }
    }
  }

  lemma ReplaceAllChar(x: char, c: char, rep: string)
    ensures ReplaceAll([x], c, rep) == if x == c then rep else [x]
  {
    assert [x][1..] == [];
  }

  lemma {:induction false} ReplaceAllAbsent(s: string, c: char, rep: string)
    requires c !in s
    ensures ReplaceAll(s, c, rep) == s
  {
    if s != [] {
      ReplaceAllAbsent(s[1..], c, rep);
    }
  }

  lemma {:induction false} ApplyRulesAppend(a: string, b: string, rules: seq<(char, string)>)
    ensures ApplyRules(a + b, rules) == ApplyRules(a, rules) + ApplyRules(b, rules)
    decreases |rules|
  {
    if rules != [] {
      var (c, rep) := rules[0];
      ReplaceAllAppend(a, b, c, rep);
      ApplyRulesAppend(ReplaceAll(a, c, rep), ReplaceAll(b, c, rep), rules[1..]);
    }
  }

  /** Rules whose characters do not occur in a string leave it alone. */
  lemma {:induction false} ApplyRulesAbsent(s: string, rules: seq<(char, string)>)
    requires forall i :: 0 <= i < |rules| ==> rules[i].0 !in s
    ensures ApplyRules(s, rules) == s
    decreases |rules|
  {
    if rules != [] {
      ReplaceAllAbsent(s, rules[0].0, rules[0].1);
      ApplyRulesAbsent(s, rules[1..]);
    }
  }

  /** A character is turned into the replacement of the first rule that matches it,
      provided no later rule matches a character of that replacement. */
  lemma {:induction false} ApplyRulesChar(c: char, rules: seq<(char, string)>, k: nat)
    requires k < |rules| && rules[k].0 == c
    requires forall i :: 0 <= i < k ==> rules[i].0 != c
    requires forall i :: k < i < |rules| ==> rules[i].0 !in rules[k].1
    ensures ApplyRules([c], rules) == rules[k].1
    decreases k
  {
    ReplaceAllChar(c, rules[0].0, rules[0].1);
    if k == 0 {
      ApplyRulesAbsent(rules[0].1, rules[1..]);
    } else {
      ApplyRulesChar(c, rules[1..], k - 1);
    }
  }

  lemma ChainedReplaceAppend(a: string, b: string)
    ensures ChainedReplace(a + b) == ChainedReplace(a) + ChainedReplace(b)
  {
    ApplyRulesAppend(a, b, Rules);
  }

  /** One character through the whole chain: no later replacement touches what an
      earlier one wrote, because no entity contains a character replaced after it. */
  lemma ChainedReplaceChar(c: char)
    ensures ChainedReplace([c]) == Entity(c)
  {
    var r := Rules;
    assert |r| == 6 && r[0].0 == '&' && r[1].0 == '<' && r[2].0 == '>' && r[3].0 == '"' && r[4].0 == '\'' && r[5].0 == '/';
    if c == '&' {
      assert forall i :: 0 < i < |r| ==> r[i].0 !in "&amp;";
      ApplyRulesChar(c, r, 0);
    } else if c == '<' {
      assert forall i :: 1 < i < |r| ==> r[i].0 !in "&lt;";
      ApplyRulesChar(c, r, 1);
    } else if c == '>' {
      assert forall i :: 2 < i < |r| ==> r[i].0 !in "&gt;";
      ApplyRulesChar(c, r, 2);
    } else if c == '"' {
      assert forall i :: 3 < i < |r| ==> r[i].0 !in "&quot;";
      ApplyRulesChar(c, r, 3);
    } else if c == '\'' {
      assert '/' !in "&#x27;";
      ApplyRulesChar(c, r, 4);
    } else if c == '/' {
      ApplyRulesChar(c, r, 5);
    } else {
      ApplyRulesAbsent([c], r);
    }
  }

  /** The chained replacements, escaping `&` first, equal the one-pass escaping. */
  lemma {:induction false} ChainedReplaceIsEscape(s: string)
    ensures ChainedReplace(s) == Escape(s)
  {
    if s != [] {
      assert s == [s[0]] + s[1..];
      ChainedReplaceAppend([s[0]], s[1..]);
      ChainedReplaceChar(s[0]);
      ChainedReplaceIsEscape(s[1..]);
    }
  }

  /** `sanitizeInput`: strings are escaped character by character; any other value
      is returned unchanged. */
  function SanitizeInput(input: JsValue): (out: JsValue)
    ensures input.NonString? ==> out == input
    ensures input.JsString? ==> out.JsString? && out.s == Escape(input.s)
  {
    match input
    case NonString(_) => input
    case JsString(s) =>
      ChainedReplaceIsEscape(s);
      JsString(ChainedReplace(s))
  }

  /** Decoding of the six entities, as an HTML parser would read the escaped text. */
  function Unescape(s: string): string
    decreases |s|
  {
    if s == [] then []
    else if "&amp;" <= s then "&" + Unescape(s[5..])
    else if "&lt;" <= s then "<" + Unescape(s[4..])
    else if "&gt;" <= s then ">" + Unescape(s[4..])
    else if "&quot;" <= s then "\"" + Unescape(s[6..])
    else if "&#x27;" <= s then "'" + Unescape(s[6..])
    else if "&#x2F;" <= s then "/" + Unescape(s[6..])
    else [s[0]] + Unescape(s[1..])
  }

  lemma NotPrefix(p: string, s: string, i: nat)
    requires i < |p| && i < |s| && p[i] != s[i]
    ensures !(p <= s)
  {
  }

  lemma UnescapeEntity(c: char, rest: string)
    ensures Unescape(Entity(c) + rest) == [c] + Unescape(rest)
  {
    var e := Entity(c) + rest;
    assert Entity(c) <= e;
    assert e[|Entity(c)|..] == rest;
    if c != '&' {
      if |Entity(c)| == 1 { NotPrefix("&amp;", e, 0); } else { NotPrefix("&amp;", e, 1); }
    }
    if c != '&' && c != '<' {
      if |Entity(c)| == 1 { NotPrefix("&lt;", e, 0); } else { NotPrefix("&lt;", e, 1); }
    }
    if c != '&' && c != '<' && c != '>' {
      if |Entity(c)| == 1 { NotPrefix("&gt;", e, 0); } else { NotPrefix("&gt;", e, 1); }
    }
    if c != '&' && c != '<' && c != '>' && c != '"' {
      if |Entity(c)| == 1 { NotPrefix("&quot;", e, 0); } else { NotPrefix("&quot;", e, 1); }
    }
    if c != '&' && c != '<' && c != '>' && c != '"' && c != '\'' {
      if |Entity(c)| == 1 { NotPrefix("&#x27;", e, 0); } else { NotPrefix("&#x27;", e, 4); }
    }
    if !IsSpecial(c) && c != '&' {
      NotPrefix("&#x2F;", e, 0);
      assert e[0] == c && e[1..] == rest;
    }
  }

  /** Nothing is escaped twice or ambiguously: decoding the sanitised text once gives
      back exactly the input. */
  lemma {:induction false} UnescapeEscape(s: string)
    ensures Unescape(Escape(s)) == s
  {
    if s != [] {
      UnescapeEntity(s[0], Escape(s[1..]));
      UnescapeEscape(s[1..]);
    }
  }

  /** Sanitising is injective: two different strings never sanitise to the same text. */
  lemma SanitizeInjective(a: string, b: string)
    requires SanitizeInput(JsString(a)) == SanitizeInput(JsString(b))
    ensures a == b
  {
    UnescapeEscape(a);
    UnescapeEscape(b);
  }

  // ---------------------------------------------------------------------------
  // isValidEmail: /^[^\s@]+@[^\s@]+\.[^\s@]+$/

  /** A character of the class `[^\s@]`. */
  predicate Plain(c: char) {
    !IsSpace(c) && c != '@'
  }

  predicate AllPlain(s: string) {
    forall i :: 0 <= i < |s| ==> Plain(s[i])
  }

  /** The regular expression read literally: a non-empty run of plain characters, `@`,
      a non-empty run, a dot, a non-empty run, and nothing else. */
  predicate IsValidEmail(email: string) {
    exists at, dot ::
      0 < at && at + 1 < dot && dot + 1 < |email| &&
      email[at] == '@' && email[dot] == '.' &&
      AllPlain(email[..at]) && AllPlain(email[at + 1..dot]) && AllPlain(email[dot + 1..])
  }

  /** The domain part `R`: no white space or `@`, and a dot that is neither its first
      nor its last character. */
  predicate IsDomainPart(r: string) {
    AllPlain(r) && exists d :: 0 < d < |r| - 1 && r[d] == '.'
  }

  /** `L@R` with `L` a non-empty run of plain characters and `R` a domain part. */
  predicate IsLocalAtDomain(email: string) {
    exists k :: 0 < k < |email| && email[k] == '@' && AllPlain(email[..k]) && IsDomainPart(email[k + 1..])
  }

  lemma RegexGivesShape(email: string, at: int, dot: int)
    requires 0 < at && at + 1 < dot && dot + 1 < |email|
    requires email[at] == '@' && email[dot] == '.'
    requires AllPlain(email[..at]) && AllPlain(email[at + 1..dot]) && AllPlain(email[dot + 1..])
    ensures AllPlain(email[at + 1..])
    ensures IsLocalAtDomain(email)
  {
    var r, mid, tail := email[at + 1..], email[at + 1..dot], email[dot + 1..];
    forall i | 0 <= i < |r| ensures Plain(r[i]) {
      if at + 1 + i < dot {
        assert r[i] == mid[i];
      } else if at + 1 + i > dot {
        assert r[i] == tail[at + i - dot];
      } else {
        assert r[i] == '.';
      }
    }
    assert r[dot - at - 1] == '.';
    assert IsDomainPart(r);
  }

  lemma ShapeGivesRegex(email: string, k: int, d: int)
    requires 0 < k < |email| && email[k] == '@' && AllPlain(email[..k])
    requires AllPlain(email[k + 1..]) && 0 < d < |email[k + 1..]| - 1 && email[k + 1..][d] == '.'
    ensures IsValidEmail(email)
  {
    var r := email[k + 1..];
    var dot := k + 1 + d;
    assert email[dot] == '.';
    var mid, tail := email[k + 1..dot], email[dot + 1..];
    forall i | 0 <= i < |mid| ensures Plain(mid[i]) {
      assert mid[i] == r[i];
    }
    forall i | 0 <= i < |tail| ensures Plain(tail[i]) {
      assert tail[i] == r[d + 1 + i];
    }
  }

  /** The regular expression accepts exactly the strings `L@R` with `L` non-empty and
      free of white space and `@`, and `R` a domain part. */
  lemma EmailCharacterization(email: string)
    ensures IsValidEmail(email) <==> IsLocalAtDomain(email)
  {
    if IsValidEmail(email) {
      var at, dot :|
        0 < at && at + 1 < dot && dot + 1 < |email| &&
        email[at] == '@' && email[dot] == '.' &&
        AllPlain(email[..at]) && AllPlain(email[at + 1..dot]) && AllPlain(email[dot + 1..]);
      RegexGivesShape(email, at, dot);
    }
    if IsLocalAtDomain(email) {
      var k :| 0 < k < |email| && email[k] == '@' && AllPlain(email[..k]) && IsDomainPart(email[k + 1..]);
      var d :| 0 < d < |email[k + 1..]| - 1 && email[k + 1..][d] == '.';
      ShapeGivesRegex(email, k, d);
    }
  }

  lemma {:induction false} CountAppend(a: string, b: string, c: char)
    ensures Count(a + b, c) == Count(a, c) + Count(b, c)
  {
    if a == [] {
      assert a + b == b;
    } else {
      assert (a + b)[0] == a[0] && (a + b)[1..] == a[1..] + b;
      CountAppend(a[1..], b, c);
    }
  }

  lemma {:induction false} CountPlain(s: string)
    requires AllPlain(s)
    ensures Count(s, '@') == 0
  {
    if s != [] {
      CountPlain(s[1..]);
    }
  }

  lemma {:induction false} CountOneAt(email: string, k: int)
    requires 0 <= k < |email| && email[k] == '@'
    requires AllPlain(email[..k]) && AllPlain(email[k + 1..])
    ensures Count(email, '@') == 1
  {
    var left, right := email[..k], email[k + 1..];
    assert email == left + ([email[k]] + right);
    CountAppend(left, [email[k]] + right, '@');
    CountAppend([email[k]], right, '@');
    assert Count([email[k]], '@') == 1 by { assert [email[k]][1..] == []; }
    CountPlain(left);
    CountPlain(right);
  }

  /** A valid address holds exactly one `@`. */
  lemma ValidEmailHasOneAt(email: string)
    requires IsValidEmail(email)
    ensures Count(email, '@') == 1
  {
    var at, dot :|
      0 < at && at + 1 < dot && dot + 1 < |email| &&
      email[at] == '@' && email[dot] == '.' &&
      AllPlain(email[..at]) && AllPlain(email[at + 1..dot]) && AllPlain(email[dot + 1..]);
    RegexGivesShape(email, at, dot);
    CountOneAt(email, at);
  }

  // ---------------------------------------------------------------------------
  // isTokenExpired and checkTokenExpiration

  /** What decoding the token's middle segment (base64, then JSON) yields: a failure
      anywhere, or the payload with `exp` as JavaScript's `*` coerces it to a number.
      `Claims(None)` is an `exp` that coerces to NaN (absent, a non-numeric string, an
      object), so that `exp * 1000` compares false with everything; `null` coerces to 0
      and `true` to 1, so those are `Claims(Some(0))` and `Claims(Some(1))`. */
  datatype Payload = Malformed | Claims(exp: Option<int>)

  /** `isTokenExpired(token)` at wall-clock time `now` (milliseconds). */
  function IsTokenExpired(token: Option<string>, decode: string -> Payload, now: int): (expired: bool)
    ensures !Truthy(token) ==> expired
    ensures Truthy(token) && decode(token.value).Malformed? ==> expired
    ensures Truthy(token) && decode(token.value) == Claims(None) ==> !expired
    ensures Truthy(token) && decode(token.value).Claims? && decode(token.value).exp.Some? ==>
              (expired <==> decode(token.value).exp.value * 1000 < now)
  {
    if !Truthy(token) then true
    else
      match decode(token.value)
      case Malformed => true
      case Claims(None) => false
      case Claims(Some(exp)) => exp * 1000 < now
  }

  /** Expiry is permanent: a token expired at `now` is expired at every later time. */
  lemma ExpiryIsPermanent(token: Option<string>, decode: string -> Payload, now: int, later: int)
    requires now <= later && IsTokenExpired(token, decode, now)
    ensures IsTokenExpired(token, decode, later)
  {
  }

  /** `checkTokenExpiration()`: an expired token is removed and the page sent to the
      login screen; a live one leaves storage and location as they were. */
  method CheckTokenExpiration(window: Window, decode: string -> Payload, now: int) returns (live: bool)
    modifies window
    ensures live == !IsTokenExpired(old(window.adminToken), decode, now)
    ensures live ==> window.adminToken == old(window.adminToken) && window.history == old(window.history)
    ensures !live ==> window.adminToken == None && window.history == old(window.history) + [LoginPath]
  {
    if IsTokenExpired(window.adminToken, decode, now) {
      window.Logout();
      return false;
    }
    return true;
  }

  // ---------------------------------------------------------------------------
  // rateLimit

  /** The `limitMs` a call that names none gets. */
  const DefaultLimitMs := 5000

  datatype RateOutcome = Allowed | TooSoon(waitSeconds: int)

  /** `Math.ceil(remainingMs / 1000)` for a positive remainder: the whole seconds to wait. */
  function WaitSeconds(remainingMs: int): (w: int)
    requires remainingMs > 0
    ensures w >= 1
    ensures (w - 1) * 1000 < remainingMs <= w * 1000
  {
    (remainingMs + 999) / 1000
  }

  /** The module-level `requestTimestamps` map and the function that consults it. */
  class RateLimiter {
    var requestTimestamps: map<string, int>

    constructor ()
      ensures requestTimestamps == map[]
    {
      requestTimestamps := map[];
    }

    /** Whether a call for `key` at `now` is refused: the key was seen at a truthy
        (non-zero) time less than `limitMs` ago. */
    function Refuses(key: string, limitMs: int, now: int): bool
      reads this
    {
      key in requestTimestamps && requestTimestamps[key] != 0 &&
      now - requestTimestamps[key] < limitMs
    }

    /** `rateLimit(key, limitMs)` at time `now`: a refused call throws with the seconds
        left and records nothing; an accepted call records `now` for `key` only. */
    method RateLimit(key: string, limitMs: int, now: int) returns (r: RateOutcome)
      modifies this
      ensures old(Refuses(key, limitMs, now)) ==>
                var elapsed := now - old(requestTimestamps)[key];
                r == TooSoon(WaitSeconds(limitMs - elapsed)) && requestTimestamps == old(requestTimestamps)
      ensures !old(Refuses(key, limitMs, now)) ==>
                r == Allowed && requestTimestamps == old(requestTimestamps)[key := now]
    {
      if key in requestTimestamps {
        var lastRequest := requestTimestamps[key];
        if lastRequest != 0 && now - lastRequest < limitMs {
          var waitTime := WaitSeconds(limitMs - (now - lastRequest));
          return TooSoon(waitTime);
        }
      }
      requestTimestamps := requestTimestamps[key := now];
      return Allowed;
    }
  }

  /** Two calls of `rateLimit(key)` with the default limit, at `now` and at `later`
      within five seconds of it: when the first is accepted the second is refused with
      the seconds still to wait, and no other key's record changes. */
  method RateLimitWindow(l: RateLimiter, key: string, now: int, later: int)
    returns (first: RateOutcome, second: RateOutcome)
    requires now != 0 && now <= later < now + DefaultLimitMs
    modifies l
    ensures first == Allowed <==> !old(l.Refuses(key, DefaultLimitMs, now))
    ensures first == Allowed ==>
              second == TooSoon(WaitSeconds(DefaultLimitMs - (later - now))) &&
              l.requestTimestamps == old(l.requestTimestamps)[key := now]
    ensures l.requestTimestamps - {key} == old(l.requestTimestamps) - {key}
  {
    first := l.RateLimit(key, DefaultLimitMs, now);
    second := l.RateLimit(key, DefaultLimitMs, later);
  }
}
