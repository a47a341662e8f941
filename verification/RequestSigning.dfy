/** Signing of private requests: the receive window and a timestamp are appended to the parameters, and a keyed digest
    of the result is appended to that (HMAC, section 2 of RFC 2104, kept abstract here). */
module RequestSigning {
  import opened Sequences
  import opened Wrappers

  const RECV_WINDOW := "&recvWindow="
  const TIMESTAMP := "&timestamp="
  const SIGNATURE := "&signature="

  // ---- Decimal numbers -------------------------------------------------------------------------

  function Digit(d: nat): char
    requires d < 10
  {
    ('0' as int + d) as char
  }

  predicate IsDigits(s: string) {
    forall i :: 0 <= i < |s| ==> '0' <= s[i] <= '9'
  }

  function Decimal(n: nat): (s: string)
    ensures IsDigits(s) && s != []
  {
    if n < 10 then [Digit(n)] else Decimal(n / 10) + [Digit(n % 10)]
  }

  /** A number of one digit is that digit; any other is the number without its last digit, followed by that digit. */
  lemma DecimalDigits(n: nat, d: nat)
    requires d < 10
    ensures Decimal(d) == ["0123456789"[d]]
    ensures n > 0 ==> Decimal(10 * n + d) == Decimal(n) + ["0123456789"[d]]
  {
    assert (10 * n + d) / 10 == n && (10 * n + d) % 10 == d;
  }

  function Value(s: string): nat
    requires IsDigits(s)
  {
    if s == [] then 0 else 10 * Value(s[..|s| - 1]) + (s[|s| - 1] as int - '0' as int)
  }

  lemma {:induction false} DecimalReadsBack(n: nat)
    ensures Value(Decimal(n)) == n
  {
    if n < 10 {
      assert [Digit(n)][..0] == [];
      assert Value([]) == 0;
    } else {
      DecimalReadsBack(n / 10);
      var s := Decimal(n);
      assert s[..|s| - 1] == Decimal(n / 10);
    }
  }

  // ---- Searching -------------------------------------------------------------------------------

  predicate OccursAt(s: string, pattern: string, i: nat) {
    i + |pattern| <= |s| && s[i..i + |pattern|] == pattern
  }

  /** Position of the last occurrence that starts at or before i. */
  function LastUpTo(s: string, pattern: string, i: nat): (r: Option<nat>)
    ensures r.Some? ==> OccursAt(s, pattern, r.value) && r.value <= i
    ensures forall j: nat :: j <= i && (r.None? || j > r.value) ==> !OccursAt(s, pattern, j)
  {
    if OccursAt(s, pattern, i) then Some(i)
    else if i == 0 then None
    else LastUpTo(s, pattern, i - 1)
  }

  function Last(s: string, pattern: string): Option<nat> {
    LastUpTo(s, pattern, |s|)
  }

  /** Position of the first question mark. */
  function Question(s: string): (r: Option<nat>)
    ensures r.Some? ==> r.value < |s| && s[r.value] == '?' && '?' !in s[..r.value]
    ensures r.None? <==> '?' !in s
  {
    if s == [] then None
    else if s[0] == '?' then Some(0)
    else
      var rest := Question(s[1..]);
      assert s == [s[0]] + s[1..];
      if rest.Some? then
        assert s[..rest.value + 1] == [s[0]] + s[1..][..rest.value];
        Some(rest.value + 1)
      else None
  }

  /** A parameter whose value holds no '&' is found again by its last occurrence. */
  lemma LastParameter(s: string, pattern: string, value: string)
    requires pattern != [] && pattern[0] == '&' && '&' !in pattern[1..] && '&' !in value
    ensures Last(s + pattern + value, pattern) == Some(|s|)
  {
    var w := s + pattern + value;
    assert w[|s|..|s| + |pattern|] == pattern;
    assert OccursAt(w, pattern, |s|);
    forall j: nat | |s| < j <= |w| ensures !OccursAt(w, pattern, j) {
      if j < |s| + |pattern| {
        assert w[j] == pattern[1..][j - |s| - 1];
      } else if j < |w| {
        assert w[j] == value[j - |s| - |pattern|];
      }
      assert j + |pattern| <= |w| ==> w[j..j + |pattern|][0] == w[j];
    }
  }

  // ---- Signing ---------------------------------------------------------------------------------

  /** The digest is 32 bytes in hexadecimal. */
  predicate IsHex(s: string) {
    |s| == 64 && forall i :: 0 <= i < |s| ==> '0' <= s[i] <= '9' || 'a' <= s[i] <= 'f' || 'A' <= s[i] <= 'F'
  }

  ghost predicate IsDigest(mac: string -> string) {
    forall text :: IsHex(mac(text))
  }

  /** The bytes that are signed. */
  function SignedText(parameters: string, ms: nat): string {
    parameters + RECV_WINDOW + "60000" + TIMESTAMP + Decimal(ms)
  }

  /** What precedes the parameters, up to and including the question mark; nothing if there is none. */
  function PathOf(target: string): string {
    var q := Question(target);
    if q.Some? then target[..q.value + 1] else ""
  }

  function ParametersOf(target: string): string {
    var q := Question(target);
    if q.Some? then target[q.value + 1..] else target
  }

  function Signed(mac: string -> string, target: string, ms: nat): string {
    var text := SignedText(ParametersOf(target), ms);
    PathOf(target) + (text + SIGNATURE + mac(text))
  }

  lemma WindowAndTimestamp(parameters: string, ms: nat)
    ensures SignedText(parameters, ms) == parameters + "&recvWindow=60000&timestamp=" + Decimal(ms)
  {
    hide Decimal;
    assert RECV_WINDOW + "60000" + TIMESTAMP == "&recvWindow=60000&timestamp=";
    ConcatAssociates(parameters, RECV_WINDOW, "60000");
    ConcatAssociates(parameters, RECV_WINDOW + "60000", TIMESTAMP);
  }

  /** The path is what precedes the parameters: up to and including the first question mark, or nothing. */
  lemma PathSplits(target: string)
    ensures PathOf(target) + ParametersOf(target) == target
    ensures '?' !in target ==> PathOf(target) == ""
    ensures '?' in target ==>
              exists q: nat :: q < |target| && '?' !in target[..q] && PathOf(target) == target[..q] + "?"
  {
    hide Question;
    if '?' in target {
      var q := Question(target).value;
      assert target[..q + 1] == target[..q] + "?";
    }
  }

  /** addTimestampToTargetPath, with the clock as a parameter; the target is rewritten. */
  method AddTimestampToTargetPath(mac: string -> string, target: string, ms: nat) returns (rewritten: string)
    ensures rewritten == Signed(mac, target, ms)
    ensures var text := ParametersOf(target) + "&recvWindow=60000&timestamp=" + Decimal(ms);
            rewritten == PathOf(target) + text + "&signature=" + mac(text)
  {
    hide Decimal, Question;
    WindowAndTimestamp(ParametersOf(target), ms);
    var q := Question(target);
    var parameters := if q.Some? then target[q.value + 1..] else target;
    var path := if q.Some? then target[..q.value + 1] else "";
    parameters := parameters + RECV_WINDOW;
    parameters := parameters + "60000";
    parameters := parameters + TIMESTAMP;
    parameters := parameters + Decimal(ms);
    assert parameters == SignedText(ParametersOf(target), ms);
    var signature := mac(parameters);
    parameters := parameters + SIGNATURE;
    parameters := parameters + signature;
    rewritten := path + parameters;
    var text := SignedText(ParametersOf(target), ms);
    ConcatAssociates(path, text, SIGNATURE);
    ConcatAssociates(path, text + SIGNATURE, mac(text));
  }

  lemma WindowValue()
    ensures Value("60000") == 60000
  {
    assert "60000"[..4] == "6000" && "6000"[..3] == "600" && "600"[..2] == "60" && "60"[..1] == "6" && "6"[..0] == "";
    assert Value("6") == 6 && Value("60") == 60 && Value("600") == 600 && Value("6000") == 6000;
  }

  // ---- What the exchange reads -----------------------------------------------------------------

  datatype Request = Request(path: string, signedText: string)

  /** The query starts after the first question mark (section 3.4 of RFC 3986); the signature is what follows its last
      "&signature=", and must be the digest of what precedes it. */
  function Verify(mac: string -> string, target: string): Option<Request> {
    var q := Question(target);
    if q.None? then None
    else
      var query := target[q.value + 1..];
      var cut := Last(query, SIGNATURE);
      if cut.None? then None
      else
        var text := query[..cut.value];
        if mac(text) == query[cut.value + |SIGNATURE|..] then Some(Request(target[..q.value], text)) else None
  }

  datatype Signing = Signing(parameters: string, window: string, timestamp: string)

  /** The original parameters, the receive window and the timestamp, cut out of the signed bytes. */
  function Recover(text: string): Option<Signing> {
    var t := Last(text, TIMESTAMP);
    if t.None? then None
    else
      var front := text[..t.value];
      var r := Last(front, RECV_WINDOW);
      if r.None? then None
      else Some(Signing(front[..r.value], front[r.value + |RECV_WINDOW|..], text[t.value + |TIMESTAMP|..]))
  }

  lemma NoQuestion(text: string)
    requires IsHex(text) || IsDigits(text)
    ensures '?' !in text && '&' !in text
  {}

  lemma {:induction false} QuestionIs(s: string, i: nat)
    requires i < |s| && s[i] == '?' && '?' !in s[..i]
    ensures Question(s) == Some(i)
  {
    if i > 0 {
      assert s[..i][0] == s[0];
      assert forall j :: 0 <= j < i - 1 ==> s[1..][j] in s[..i];
      QuestionIs(s[1..], i - 1);
    }
  }

  lemma TextPrefix(p: string, r: string, ms: nat)
    ensures p + SignedText(r, ms) == SignedText(p + r, ms)
  {
    hide Decimal;
    ConcatAssociates(p, r, RECV_WINDOW);
    ConcatAssociates(p, r + RECV_WINDOW, "60000");
    ConcatAssociates(p, r + RECV_WINDOW + "60000", TIMESTAMP);
    ConcatAssociates(p, r + RECV_WINDOW + "60000" + TIMESTAMP, Decimal(ms));
  }

  /** A signed target is the target with a suffix. */
  lemma SignedIsSuffixed(mac: string -> string, target: string, ms: nat)
    ensures Signed(mac, target, ms)
            == SignedText(target, ms) + SIGNATURE + mac(SignedText(ParametersOf(target), ms))
  {
    hide Decimal, Question;
    var p, r, digest := PathOf(target), ParametersOf(target), mac(SignedText(ParametersOf(target), ms));
    assert p + r == target;
    TextPrefix(p, r, ms);
    ConcatAssociates(p, SignedText(r, ms), SIGNATURE);
    ConcatAssociates(p, SignedText(r, ms) + SIGNATURE, digest);
  }

  /** A query that ends in the signature of its text verifies, to that text. */
  lemma QueryVerifies(mac: string -> string, path: string, text: string)
    requires IsDigest(mac) && '?' !in path
    ensures Verify(mac, path + "?" + (text + SIGNATURE + mac(text))) == Some(Request(path, text))
  {
    assert IsHex(mac(text));
    NoQuestion(mac(text));
    var query := text + SIGNATURE + mac(text);
    var target := path + "?" + query;
    assert target[..|path|] == path && target[|path|] == '?';
    QuestionIs(target, |path|);
    assert target[|path| + 1..] == query;
    LastParameter(text, SIGNATURE, mac(text));
    assert query[..|text|] == text && query[|text| + |SIGNATURE|..] == mac(text);
  }

  lemma Without(s: string, t: string)
    requires '?' !in s && '?' !in t
    ensures '?' !in s + t
  {}

  lemma SignedHasNoQuestion(mac: string -> string, target: string, ms: nat)
    requires IsDigest(mac) && '?' !in target
    ensures '?' !in Signed(mac, target, ms) && Verify(mac, Signed(mac, target, ms)).None?
  {
    SignedIsSuffixed(mac, target, ms);
    var digest := mac(SignedText(ParametersOf(target), ms));
    assert IsHex(digest);
    NoQuestion(digest);
    NoQuestion(Decimal(ms));
    Without(target, RECV_WINDOW);
    Without(target + RECV_WINDOW, "60000");
    Without(target + RECV_WINDOW + "60000", TIMESTAMP);
    Without(target + RECV_WINDOW + "60000" + TIMESTAMP, Decimal(ms));
    Without(SignedText(target, ms), SIGNATURE);
    Without(SignedText(target, ms) + SIGNATURE, digest);
  }

  /** The exchange accepts a signed target exactly when it contains a question mark, and then verifies exactly the
      bytes that were signed: the original parameters, the receive window and the timestamp. */
  lemma AcceptedExactlyWithQuery(mac: string -> string, target: string, ms: nat)
    requires IsDigest(mac)
    ensures Verify(mac, Signed(mac, target, ms)).Some? <==> '?' in target
    ensures '?' in target ==>
              var q := Question(target).value;
              Verify(mac, Signed(mac, target, ms)) == Some(Request(target[..q], SignedText(target[q + 1..], ms)))
  {
    hide Decimal, Question, Verify;
    if '?' in target {
      var q := Question(target).value;
      var text := SignedText(target[q + 1..], ms);
      assert target[..q + 1] == target[..q] + "?";
      QueryVerifies(mac, target[..q], text);
    } else {
      SignedHasNoQuestion(mac, target, ms);
    }
  }

  /** The parameters, a receive window of 60000 ms and the timestamp are read back from the signed bytes. */
  lemma SignedTextReadsBack(parameters: string, ms: nat)
    ensures Recover(SignedText(parameters, ms)) == Some(Signing(parameters, "60000", Decimal(ms)))
    ensures Value("60000") == 60000 && Value(Decimal(ms)) == ms
  {
    var front := parameters + RECV_WINDOW + "60000";
    NoQuestion(Decimal(ms));
    assert SignedText(parameters, ms) == front + TIMESTAMP + Decimal(ms);
    LastParameter(front, TIMESTAMP, Decimal(ms));
    LastParameter(parameters, RECV_WINDOW, "60000");
    var text := SignedText(parameters, ms);
    assert text[..|front|] == front && text[|front| + |TIMESTAMP|..] == Decimal(ms);
    assert front[..|parameters|] == parameters && front[|parameters| + |RECV_WINDOW|..] == "60000";
    DecimalReadsBack(ms);
    WindowValue();
  }

  /** Different targets or different times are never signed to the same request. */
  lemma SigningIsInjective(mac: string -> string, target: string, ms: nat, target': string, ms': nat)
    requires IsDigest(mac)
    requires Signed(mac, target, ms) == Signed(mac, target', ms')
    ensures target == target' && ms == ms'
  {
    SignedIsSuffixed(mac, target, ms);
    SignedIsSuffixed(mac, target', ms');
    var digest, digest' := mac(SignedText(ParametersOf(target), ms)), mac(SignedText(ParametersOf(target'), ms'));
    NoQuestion(digest);
    NoQuestion(digest');
    LastParameter(SignedText(target, ms), SIGNATURE, digest);
    LastParameter(SignedText(target', ms'), SIGNATURE, digest');
    var text, text' := SignedText(target, ms), SignedText(target', ms');
    assert (text + SIGNATURE + digest)[..|text|] == text;
    assert (text' + SIGNATURE + digest')[..|text'|] == text';
    SignedTextReadsBack(target, ms);
    SignedTextReadsBack(target', ms');
  }
}
