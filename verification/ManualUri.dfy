/** The manual pairing token: a `wdr://` URI that carries host, port, nonce, fingerprint and an optional label. */
module ManualUri {
  import opened Prelude

  const NONCE_LEN: nat := 16
  const FINGERPRINT_LEN: nat := 32
  const MAX_TOKEN_BYTES: nat := 512
  const MAX_LABEL_CHARS: nat := 32

  const SCHEME := "wdr://"
  const NONCE_KEY := "nonce="
  const FP_KEY := "fp="

  type Nonce = s: seq<byte> | |s| == NONCE_LEN witness seq(NONCE_LEN, _ => 0)
  type Fingerprint = s: seq<byte> | |s| == FINGERPRINT_LEN witness seq(FINGERPRINT_LEN, _ => 0)

  datatype Token = Token(host: string, port: u16, nonce: Nonce, fingerprint: Fingerprint, tag: Option<string>)

  datatype ManualError = Malformed | Scheme | Host | Port | NonceLen | FingerprintLen | LabelTooLong | Bounds

  // ---- Searching and cutting ----

  function IndexOf(s: string, c: char): (r: Option<nat>)
    ensures r.Some? <==> c in s
    ensures r.Some? ==> r.value < |s| && s[r.value] == c && c !in s[..r.value]
  {
    if s == "" then None
    else if s[0] == c then Some(0)
    else
      match IndexOf(s[1..], c)
      case None => None
      case Some(i) =>
        assert s[..i + 1] == [s[0]] + s[1..][..i];
        Some(i + 1)
  }

  function LastIndexOf(s: string, c: char): (r: Option<nat>)
    ensures r.Some? <==> c in s
    ensures r.Some? ==> r.value < |s| && s[r.value] == c && c !in s[r.value + 1..]
  {
    if s == "" then None
    else if s[|s| - 1] == c then Some(|s| - 1)
    else
      var front := s[..|s| - 1];
      assert s == front + [s[|s| - 1]];
      match LastIndexOf(front, c)
      case None => None
      case Some(i) =>
        assert s[i + 1..] == front[i + 1..] + [s[|s| - 1]];
        Some(i)
  }

  /** What lies before and behind the first `c`. */
  function CutAt(s: string, c: char): (r: (string, Option<string>))
    ensures r.1.Some? ==> |r.1.value| < |s|
  {
    match IndexOf(s, c)
    case None => (s, None)
    case Some(i) => (s[..i], Some(s[i + 1..]))
  }

  lemma Occurs(s: string, c: char, i: nat, k: nat)
    requires i < k <= |s| && s[i] == c
    ensures c in s[..k]
  {
    assert s[..k][i] == c;
  }

  lemma FirstUnique(s: string, c: char, i: nat, k: nat)
    requires i < |s| && k < |s| && s[i] == c == s[k] && c !in s[..i] && c !in s[..k]
    ensures i == k
  {
    if i < k { Occurs(s, c, i, k); }
    if k < i { Occurs(s, c, k, i); }
  }

  lemma CutHere(a: string, c: char, b: string)
    requires c !in a
    ensures CutAt(a + [c] + b, c) == (a, Some(b))
  {
    var s := a + [c] + b;
    assert s[|a|] == c && s[..|a|] == a && s[|a| + 1..] == b;
    FirstUnique(s, c, |a|, IndexOf(s, c).value);
  }

  lemma CutNowhere(s: string, c: char)
    requires c !in s
    ensures CutAt(s, c) == (s, None)
  {
  }

  /** The end of the slashes that start at `from`. */
  function SlashesEnd(s: string, from: nat): (end: nat)
    requires from <= |s|
    ensures from <= end <= |s| && (forall i :: from <= i < end ==> s[i] == '/') && (end < |s| ==> s[end] != '/')
    decreases |s| - from
  {
    if from < |s| && s[from] == '/' then SlashesEnd(s, from + 1) else from
  }

  function TrimFront(s: string): string {
    s[SlashesEnd(s, 0)..]
  }

  function TrimBack(s: string): string {
    if s != "" && s[|s| - 1] == '/' then TrimBack(s[..|s| - 1]) else s
  }

  function TrimSlashes(s: string): string {
    TrimBack(TrimFront(s))
  }

  // ---- Numbers ----

  function Digit(d: nat): char
    requires d < 16
  {
    "0123456789abcdef"[d]
  }

  function HexValue(c: char): Option<nat> {
    if '0' <= c <= '9' then Some(c as nat - '0' as nat)
    else if 'a' <= c <= 'f' then Some(c as nat - 'a' as nat + 10)
    else if 'A' <= c <= 'F' then Some(c as nat - 'A' as nat + 10)
    else None
  }

  lemma DigitValue(d: nat)
    requires d < 16
    ensures HexValue(Digit(d)) == Some(d) && Digit(d) != '+'
    ensures Digit(d) !in {'#', '?', '&', '=', '/', ':'} && Digit(d) as int < 0x80
  {
  }

  function Decimal(n: nat): (s: string)
    ensures s != ""
  {
    if n < 10 then [Digit(n)] else Decimal(n / 10) + [Digit(n % 10)]
  }

  /** The value of a nonempty string of decimal digits. */
  function DigitsValue(s: string): Option<nat> {
    if s == "" then Some(0)
    else
      match DigitsValue(s[..|s| - 1])
      case None => None
      case Some(v) =>
        var c := s[|s| - 1];
        if '0' <= c <= '9' then Some(10 * v + (c as nat - '0' as nat)) else None
  }

  /** A leading plus sign is accepted. */
  function ParseU16(s: string): Option<u16> {
    var digits := if s != "" && s[0] == '+' then s[1..] else s;
    if digits == "" then None
    else
      match DigitsValue(digits)
      case None => None
      case Some(v) => if v < U16_LIMIT then Some(v) else None
  }

  predicate AllDigits(s: string) {
    forall c <- s :: '0' <= c <= '9'
  }

  lemma {:induction false} DecimalRoundTrip(n: nat)
    ensures AllDigits(Decimal(n)) && DigitsValue(Decimal(n)) == Some(n)
  {
    if n >= 10 {
      DecimalRoundTrip(n / 10);
      assert Decimal(n)[..|Decimal(n)| - 1] == Decimal(n / 10);
    } else {
      assert [Digit(n)][..0] == "";
    }
  }

  lemma PortRoundTrip(port: u16)
    ensures ParseU16(Decimal(port)) == Some(port) && AllDigits(Decimal(port))
  {
    DecimalRoundTrip(port);
    var s := Decimal(port);
    assert s[0] in s;
  }

  lemma PortLength(port: u16)
    ensures |Decimal(port)| <= 5
  {
    var a := port / 10;
    var b := a / 10;
    var c := b / 10;
    var d := c / 10;
    assert |Decimal(d)| == 1;
    OneMoreDigit(c);
    OneMoreDigit(b);
    OneMoreDigit(a);
    OneMoreDigit(port);
  }

  lemma OneMoreDigit(n: nat)
    ensures |Decimal(n)| <= |Decimal(n / 10)| + 1
  {
  }

  // ---- Hex ----

  function HexPair(b: byte): string {
    [Digit(b / 16), Digit(b % 16)]
  }

  function HexOf(bytes: seq<byte>): (s: string)
    ensures |s| == 2 * |bytes|
  {
    if bytes == [] then "" else HexOf(bytes[..|bytes| - 1]) + HexPair(bytes[|bytes| - 1])
  }

  method Hex(bytes: seq<byte>) returns (s: string)
    ensures s == HexOf(bytes)
  {
    s := "";
    for i := 0 to |bytes|
      invariant s == HexOf(bytes[..i])
    {
      assert bytes[..i + 1][..i] == bytes[..i];
      s := s + HexPair(bytes[i]);
    }
    assert bytes[..|bytes|] == bytes;
  }

  /** Two hex digits of either case; a plus sign may stand for the first one. */
  function PairValue(high: char, low: char): Option<byte> {
    if high == '+' then HexValue(low)
    else
      match (HexValue(high), HexValue(low))
      case (Some(h), Some(l)) => Some(16 * h + l)
      case _ => None
  }

  function Joined(front: Option<seq<byte>>, b: Option<byte>): Option<seq<byte>> {
    if front.Some? && b.Some? then Some(front.value + [b.value]) else None
  }

  function DehexOf(s: string, n: nat): (r: Option<seq<byte>>)
    ensures r.Some? ==> |r.value| == n
  {
    if |s| != 2 * n then None
    else if n == 0 then Some([])
    else Joined(DehexOf(s[..2 * n - 2], n - 1), PairValue(s[2 * n - 2], s[2 * n - 1]))
  }

  lemma DehexStep(s: string, front: string, n: nat, high: char, low: char)
    requires |front| == 2 * n && s == front + [high, low]
    ensures DehexOf(s, n + 1) == Joined(DehexOf(front, n), PairValue(high, low))
  {
    assert s[..2 * n] == front;
  }

  lemma {:induction false} DehexFails(s: string, n: nat, k: nat)
    requires k <= n && |s| == 2 * n && DehexOf(s[..2 * k], k).None?
    ensures DehexOf(s, n).None?
    decreases n
  {
    if k == n {
      assert s[..2 * k] == s;
    } else {
      assert s[..2 * n - 2][..2 * k] == s[..2 * k];
      DehexFails(s[..2 * n - 2], n - 1, k);
    }
  }

  method Dehex(s: string, n: nat) returns (r: Option<seq<byte>>)
    ensures r == DehexOf(s, n)
  {
    if |s| != 2 * n {
      return None;
    }
    var out := [];
    for i := 0 to n
      invariant DehexOf(s[..2 * i], i) == Some(out)
    {
      assert s[..2 * (i + 1)] == s[..2 * i] + [s[2 * i], s[2 * i + 1]];
      DehexStep(s[..2 * (i + 1)], s[..2 * i], i, s[2 * i], s[2 * i + 1]);
      var b := PairValue(s[2 * i], s[2 * i + 1]);
      if b == None {
        DehexFails(s, n, i + 1);
        return None;
      }
      out := out + [b.value];
    }
    assert s[..2 * n] == s;
    return Some(out);
  }

  lemma PairRoundTrip(b: byte)
    ensures PairValue(Digit(b / 16), Digit(b % 16)) == Some(b)
  {
    DigitValue(b / 16);
    DigitValue(b % 16);
  }

  lemma {:induction false} HexRoundTrip(bytes: seq<byte>)
    ensures DehexOf(HexOf(bytes), |bytes|) == Some(bytes)
  {
    hide Digit, PairValue;
    if bytes != [] {
      var n, last := |bytes|, bytes[|bytes| - 1];
      var front := HexOf(bytes[..n - 1]);
      HexRoundTrip(bytes[..n - 1]);
      PairRoundTrip(last);
      assert HexOf(bytes) == front + [Digit(last / 16), Digit(last % 16)];
      DehexStep(HexOf(bytes), front, n - 1, Digit(last / 16), Digit(last % 16));
      assert bytes == bytes[..n - 1] + [last];
    }
  }

  // ---- The query ----

  function Split(s: string, c: char): (parts: seq<string>)
    decreases |s|
  {
    var (front, rest) := CutAt(s, c);
    if rest.None? then [front] else [front] + Split(rest.value, c)
  }

  datatype Params = Params(nonce: Option<Nonce>, fingerprint: Option<Fingerprint>)

  /** One `key=value`; unknown keys are ignored and later values win. */
  function Param(p: Params, kv: string): Result<Params, ManualError> {
    if kv == "" then Ok(p)
    else
      match CutAt(kv, '=')
      case (_, None) => Err(Malformed)
      case (k, Some(v)) =>
        if k == "nonce" then
          (match DehexOf(v, NONCE_LEN)
           case None => Err(NonceLen)
           case Some(bytes) => Ok(p.(nonce := Some(bytes))))
        else if k == "fp" then
          (match DehexOf(v, FINGERPRINT_LEN)
           case None => Err(FingerprintLen)
           case Some(bytes) => Ok(p.(fingerprint := Some(bytes))))
        else Ok(p)
  }

  function ParamsOf(p: Params, kvs: seq<string>): Result<Params, ManualError>
    decreases kvs
  {
    if kvs == [] then Ok(p)
    else
      match Param(p, kvs[0])
      case Err(e) => Err(e)
      case Ok(p') => ParamsOf(p', kvs[1..])
  }

  method ReadQuery(query: string) returns (r: Result<Params, ManualError>)
    ensures r == ParamsOf(Params(None, None), Split(query, '&'))
  {
    var kvs, p := Split(query, '&'), Params(None, None);
    for i := 0 to |kvs|
      invariant ParamsOf(Params(None, None), kvs) == ParamsOf(p, kvs[i..])
    {
      var one := Param(p, kvs[i]);
      if one.Err? {
        return Err(one.error);
      }
      assert kvs[i..][1..] == kvs[i + 1..];
      p := one.value;
    }
    return Ok(p);
  }

  // ---- Encoding and parsing ----

  predicate UrlSafe(s: string) {
    forall c <- s :: '0' <= c <= '9' || 'a' <= c <= 'z' || 'A' <= c <= 'Z' || c == '-' || c == '_'
  }

  function HostText(host: string): string {
    if ':' in host && host[0] != '[' then "[" + host + "]" else host
  }

  function QueryText(nonce: Nonce, fingerprint: Fingerprint): string {
    NONCE_KEY + HexOf(nonce) + "&" + (FP_KEY + HexOf(fingerprint))
  }

  function AuthorityText(t: Token): string {
    (HostText(t.host) + ":" + Decimal(t.port)) + "?" + QueryText(t.nonce, t.fingerprint)
  }

  function EncodeUri(t: Token): string {
    SCHEME + (if t.tag.Some? then AuthorityText(t) + "#" + t.tag.value else AuthorityText(t))
  }

  /** Host and port text: a bracketed host up to its bracket, or everything up to the last colon. */
  function SplitHost(hostport: string): Result<(string, string), ManualError> {
    if hostport != "" && hostport[0] == '[' then
      match CutAt(hostport[1..], ']')
      case (_, None) => Err(Malformed)
      case (host, Some(after)) => if after != "" && after[0] == ':' then Ok((host, after[1..])) else Err(Malformed)
    else
      match LastIndexOf(hostport, ':')
      case None => Err(Port)
      case Some(i) => Ok((hostport[..i], hostport[i + 1..]))
  }

  function ParseTag(tag: Option<string>): Result<Option<string>, ManualError> {
    if tag.None? || tag.value == "" then Ok(None)
    else if |tag.value| > MAX_LABEL_CHARS then Err(LabelTooLong)
    else if !UrlSafe(tag.value) then Err(Malformed)
    else Ok(tag)
  }

  function ParseHostPort(hostport: string): Result<(string, u16), ManualError> {
    var (host, portText) :- SplitHost(TrimSlashes(hostport));
    if host == "" then Err(Host)
    else
      match ParseU16(portText)
      case None => Err(Port)
      case Some(port) => if port == 0 then Err(Port) else Ok((host, port))
  }

  function ParseQuery(query: string): Result<(Nonce, Fingerprint), ManualError> {
    var p :- ParamsOf(Params(None, None), Split(query, '&'));
    if p.nonce.None? || p.fingerprint.None? then Err(Malformed) else Ok((p.nonce.value, p.fingerprint.value))
  }

  function ParseAuthority(authority: string, tag: Option<string>): Result<Token, ManualError> {
    if authority == "" then Err(Malformed)
    else
      var (hostport, query) := CutAt(authority, '?');
      var (host, port) :- ParseHostPort(hostport);
      var (nonce, fingerprint) :- ParseQuery(if query.Some? then query.value else "");
      var tag :- ParseTag(tag);
      Ok(Token(host, port, nonce, fingerprint, tag))
  }

  function ParseUri(s: string): Result<Token, ManualError> {
    if !(SCHEME <= s) then Err(Scheme)
    else
      var (authority, tag) := CutAt(s[|SCHEME|..], '#');
      ParseAuthority(authority, tag)
  }

  // ---- The round trip ----

  predicate GoodTag(tag: Option<string>) {
    tag.None? || (0 < |tag.value| <= MAX_LABEL_CHARS && UrlSafe(tag.value))
  }

  /** Hosts that survive: nonempty, no `#` or `?`, not starting like a bracketed one, and not cut by the parser. */
  predicate GoodHost(host: string) {
    && host != "" && '#' !in host && '?' !in host && host[0] != '['
    && if ':' in host then ']' !in host else host[0] != '/'
  }

  lemma {:induction false} HexPlain(bytes: seq<byte>)
    ensures forall c <- HexOf(bytes) :: c !in {'#', '?', '&', '=', '/', ':'}
  {
    if bytes != [] {
      HexPlain(bytes[..|bytes| - 1]);
      DigitValue(bytes[|bytes| - 1] / 16);
      DigitValue(bytes[|bytes| - 1] % 16);
    }
  }

  lemma ParamValue(p: Params, k: string, v: string)
    requires '=' !in k && k != ""
    ensures k + "=" + v != "" && CutAt(k + "=" + v, '=') == (k, Some(v))
  {
    CutHere(k, '=', v);
  }

  lemma ParamRoundTrip(p: Params, nonce: Nonce, fingerprint: Fingerprint)
    ensures Param(p, "nonce" + "=" + HexOf(nonce)) == Ok(p.(nonce := Some(nonce)))
    ensures Param(p, "fp" + "=" + HexOf(fingerprint)) == Ok(p.(fingerprint := Some(fingerprint)))
  {
    hide HexOf, DehexOf, CutAt;
    HexRoundTrip(nonce);
    HexRoundTrip(fingerprint);
    ParamValue(p, "nonce", HexOf(nonce));
    ParamValue(p, "fp", HexOf(fingerprint));
    assert "nonce" != "fp" by { assert |"nonce"| != |"fp"|; }
  }

  lemma TwoParts(a: string, b: string)
    requires '&' !in a && '&' !in b
    ensures Split(a + ['&'] + b, '&') == [a, b]
  {
    CutHere(a, '&', b);
    CutNowhere(b, '&');
    assert Split(b, '&') == [b];
    assert [a] + [b] == [a, b];
  }

  lemma QueryRoundTrip(nonce: Nonce, fingerprint: Fingerprint)
    ensures ParseQuery(QueryText(nonce, fingerprint)) == Ok((nonce, fingerprint))
  {
    hide HexOf, DehexOf, CutAt, Param, Split;
    var a, b := "nonce" + "=" + HexOf(nonce), "fp" + "=" + HexOf(fingerprint);
    HexPlain(nonce);
    HexPlain(fingerprint);
    assert '&' !in a && '&' !in b;
    TwoParts(a, b);
    assert QueryText(nonce, fingerprint) == a + ['&'] + b;
    ParamRoundTrip(Params(None, None), nonce, fingerprint);
    ParamRoundTrip(Params(Some(nonce), None), nonce, fingerprint);
    assert [a, b][1..] == [b] && [b][1..] == [];
    assert ParamsOf(Params(Some(nonce), None), [b]) == Ok(Params(Some(nonce), Some(fingerprint)));
  }

  /** Host text, colon, port: what stands before the query. */
  function HostPortText(host: string, port: u16): string {
    HostText(host) + ":" + Decimal(port)
  }

  /** Trimming leaves a text alone that neither starts nor ends with a slash. */
  lemma NothingToTrim(s: string)
    requires s != "" && s[0] != '/' && s[|s| - 1] != '/'
    ensures TrimSlashes(s) == s
  {
  }

  lemma LastHere(a: string, c: char, b: string)
    requires c !in b
    ensures LastIndexOf(a + [c] + b, c) == Some(|a|)
  {
    var s := a + [c] + b;
    assert s[|a|] == c && s[|a| + 1..] == b;
    LastUnique(s, c, |a|, LastIndexOf(s, c).value);
  }

  lemma OccursBehind(s: string, c: char, i: nat, k: nat)
    requires k < i < |s| && s[i] == c
    ensures c in s[k + 1..]
  {
    assert s[k + 1..][i - k - 1] == c;
  }

  lemma LastUnique(s: string, c: char, i: nat, k: nat)
    requires i < |s| && k < |s| && s[i] == c == s[k] && c !in s[i + 1..] && c !in s[k + 1..]
    ensures i == k
  {
    if i < k { OccursBehind(s, c, k, i); }
    if k < i { OccursBehind(s, c, i, k); }
  }

  lemma PortEnds(host: string, port: u16)
    ensures var hp := HostPortText(host, port);
            && '0' <= hp[|hp| - 1] <= '9' && ':' !in Decimal(port) && '#' !in Decimal(port) && '?' !in Decimal(port)
  {
    PortRoundTrip(port);
    var d := Decimal(port);
    assert d[|d| - 1] in d;
  }

  lemma SplitPlain(host: string, d: string)
    requires host != "" && host[0] != '[' && ':' !in d
    ensures SplitHost(host + ":" + d) == Ok((host, d))
  {
    hide LastIndexOf;
    var hp := host + [':'] + d;
    assert hp == host + ":" + d;
    LastHere(host, ':', d);
    assert hp[..|host|] == host && hp[|host| + 1..] == d;
  }

  lemma SplitBracketed(host: string, d: string)
    requires ']' !in host
    ensures SplitHost("[" + host + "]" + ":" + d) == Ok((host, d))
  {
    hide CutAt;
    var hp := "[" + host + "]" + ":" + d;
    CutHere(host, ']', ":" + d);
    assert hp[1..] == host + [']'] + (":" + d);
    assert (":" + d)[1..] == d;
  }

  lemma HostRoundTrip(host: string, port: u16)
    requires GoodHost(host) && port != 0
    ensures ParseHostPort(HostPortText(host, port)) == Ok((host, port))
  {
    hide SplitHost, TrimSlashes, ParseU16, Decimal;
    var hp, d := HostPortText(host, port), Decimal(port);
    PortEnds(host, port);
    PortRoundTrip(port);
    assert hp[0] != '/';
    NothingToTrim(hp);
    if ':' in host {
      SplitBracketed(host, d);
    } else {
      SplitPlain(host, d);
    }
  }

  /** The parts of a token's URI are found where they were put. */
  lemma AuthorityFound(t: Token)
    requires '#' !in t.host && '?' !in t.host
    ensures ParseUri(EncodeUri(t)) == ParseAuthority(AuthorityText(t), t.tag)
    ensures CutAt(AuthorityText(t), '?') == (HostPortText(t.host, t.port), Some(QueryText(t.nonce, t.fingerprint)))
  {
    hide HexOf, ParseAuthority;
    var hp, q := HostPortText(t.host, t.port), QueryText(t.nonce, t.fingerprint);
    PortEnds(t.host, t.port);
    HexPlain(t.nonce);
    HexPlain(t.fingerprint);
    assert '#' !in hp && '?' !in hp;
    assert '#' !in q;
    CutHere(hp, '?', q);
    var a := AuthorityText(t);
    assert a == hp + ['?'] + q;
    if t.tag.Some? {
      CutHere(a, '#', t.tag.value);
      assert EncodeUri(t)[|SCHEME|..] == a + ['#'] + t.tag.value;
    } else {
      CutNowhere(a, '#');
      assert EncodeUri(t)[|SCHEME|..] == a;
    }
  }

  lemma ParsesBack(t: Token)
    requires t.port != 0 && GoodHost(t.host) && GoodTag(t.tag)
    ensures ParseUri(EncodeUri(t)) == Ok(t)
  {
    hide ParseHostPort, ParseQuery, HostPortText, QueryText, CutAt, EncodeUri;
    AuthorityFound(t);
    HostRoundTrip(t.host, t.port);
    QueryRoundTrip(t.nonce, t.fingerprint);
    assert AuthorityText(t) != "";
  }

  // ---- Whatever parses is well-formed ----

  predicate Within(part: string, whole: string) {
    forall c <- part :: c in whole
  }

  lemma {:induction false} TrimBackWithin(s: string)
    ensures Within(TrimBack(s), s)
  {
    if s != "" && s[|s| - 1] == '/' { TrimBackWithin(s[..|s| - 1]); }
  }

  lemma TrimWithin(s: string)
    ensures Within(TrimSlashes(s), s)
  {
    TrimBackWithin(TrimFront(s));
  }

  lemma HostWithin(hostport: string)
    requires ParseHostPort(hostport).Ok?
    ensures Within(ParseHostPort(hostport).value.0, hostport)
  {
    hide TrimSlashes;
    TrimWithin(hostport);
    var host := ParseHostPort(hostport).value.0;
    assert Within(host, TrimSlashes(hostport));
  }

  /** Any accepted URI yields a nonzero port, a nonempty host without `#` and `?`, and a proper label or none. */
  lemma ParsedShape(s: string)
    ensures match ParseUri(s)
            case Err(_) => true
            case Ok(t) => t.port != 0 && t.host != "" && '#' !in t.host && '?' !in t.host && GoodTag(t.tag)
  {
    hide ParseHostPort, ParseQuery, ParseTag;
    if ParseUri(s).Ok? {
      var (authority, tag) := CutAt(s[|SCHEME|..], '#');
      var (hostport, query) := CutAt(authority, '?');
      assert '#' !in authority && '?' !in hostport && Within(hostport, authority);
      HostWithin(hostport);
      HostPortShape(hostport);
      TagShape(tag);
    }
  }

  lemma HostPortShape(hostport: string)
    requires ParseHostPort(hostport).Ok?
    ensures ParseHostPort(hostport).value.0 != "" && ParseHostPort(hostport).value.1 != 0
  {
  }

  lemma TagShape(tag: Option<string>)
    requires ParseTag(tag).Ok?
    ensures GoodTag(ParseTag(tag).value)
  {
  }

  // ---- Only good hosts come back ----

  lemma {:induction false} AllAlike(s: string, n: nat)
    requires n < |s| && forall j :: 0 <= j < |s| - 1 ==> s[j] == s[j + 1]
    ensures s[0] == s[n]
  {
    if n > 0 { AllAlike(s, n - 1); }
  }

  /** A text that repeats itself one place on, up to a colon, is all colons. */
  lemma RotatedHost(host: string, d: string)
    requires host != ""
    ensures (host[1..] + ":" + d)[..|host|] == host ==> host[0] == ':'
  {
    var rotated := (host[1..] + ":" + d)[..|host|];
    assert rotated[|host| - 1] == ':';
    if rotated == host {
      forall j | 0 <= j < |host| - 1 ensures host[j] == host[j + 1] {
        assert rotated[j] == host[1..][j];
      }
      AllAlike(host, |host| - 1);
    }
  }

  /** A host that starts with a bracket of its own is not bracketed again, and is read short. */
  lemma BracketLost(host: string, port: u16)
    requires host != "" && host[0] == '['
    ensures ParseHostPort(HostPortText(host, port)) != Ok((host, port))
  {
    hide TrimSlashes, ParseU16, Decimal, CutAt;
    var hp, d := HostPortText(host, port), Decimal(port);
    PortEnds(host, port);
    NothingToTrim(hp);
    assert hp[1..] == host[1..] + ":" + d;
    RotatedHost(host, d);
    CutIsPrefix(hp[1..], ']');
  }

  lemma CutIsPrefix(s: string, c: char)
    ensures CutAt(s, c).0 <= s && c !in CutAt(s, c).0
  {
  }

  /** A colon puts the host in brackets; a closing bracket inside then ends it early. */
  lemma InnerBracketLost(host: string, port: u16)
    requires host != "" && host[0] != '[' && ':' in host && ']' in host
    ensures ParseHostPort(HostPortText(host, port)) != Ok((host, port))
  {
    hide TrimSlashes, ParseU16, Decimal, CutAt;
    var hp := HostPortText(host, port);
    PortEnds(host, port);
    NothingToTrim(hp);
    CutIsPrefix(hp[1..], ']');
  }

  /** What is left of a host that starts with a slash, its colon and its port. */
  lemma SlashesTrimmed(host: string, port: u16) returns (k: nat)
    requires host != "" && host[0] == '/' && ':' !in host
    ensures 0 < k <= |host|
    ensures TrimSlashes(HostPortText(host, port)) == (host + ":" + Decimal(port))[k..]
    ensures (host + ":" + Decimal(port))[k] != '/'
  {
    hide Decimal;
    var hp := HostPortText(host, port);
    PortEnds(host, port);
    assert hp == host + ":" + Decimal(port) && hp[|host|] == ':' && hp[0] == '/';
    k := SlashesEnd(hp, 0);
    var cut := hp[k..];
    assert cut[|cut| - 1] == hp[|hp| - 1] && cut[0] == hp[k];
  }

  /** Without brackets, leading slashes are trimmed away. */
  lemma SlashLost(host: string, port: u16)
    requires host != "" && host[0] == '/' && ':' !in host
    ensures ParseHostPort(HostPortText(host, port)) != Ok((host, port))
  {
    hide TrimSlashes, ParseU16, Decimal, CutAt, HostPortText;
    var k := SlashesTrimmed(host, port);
    var whole := host + ":" + Decimal(port);
    var cut := whole[k..];
    assert cut[|host| - k] == ':' && cut[0] != '/';
    assert cut[1..] == whole[k + 1..];
    ShiftFindsColon(host, Decimal(port), k + 1);
    CutIsPrefix(cut[1..], ']');
    assert forall i | 0 < i <= |cut| :: cut[..i][0] == cut[0];
  }

  /** Read from a later place, a host would run into the colon behind it. */
  lemma ShiftFindsColon(host: string, d: string, k: nat)
    requires 0 < k <= |host| + 1 && ':' !in host && host != ""
    ensures (host + ":" + d)[k..] == [] || !(host <= (host + ":" + d)[k..]) || k == |host| + 1
  {
    var rest := (host + ":" + d)[k..];
    if k <= |host| {
      assert rest[|host| - k] == ':';
      assert host[|host| - k] in host;
    }
  }

  lemma OnlyGoodHosts(t: Token)
    requires ParseUri(EncodeUri(t)) == Ok(t)
    ensures t.port != 0 && GoodHost(t.host) && GoodTag(t.tag)
  {
    hide ParseHostPort, ParseQuery, HostPortText, EncodeUri, CutAt;
    ParsedShape(EncodeUri(t));
    AuthorityFound(t);
    var hp := HostPortText(t.host, t.port);
    var r := ParseHostPort(hp);
    assert r.Ok? && r.value.0 == t.host && r.value.1 == t.port;
    if t.host[0] == '[' {
      BracketLost(t.host, t.port);
    } else if ':' in t.host && ']' in t.host {
      InnerBracketLost(t.host, t.port);
    } else if ':' !in t.host && t.host[0] == '/' {
      SlashLost(t.host, t.port);
    }
  }

  /** Exactly which tokens survive encoding and parsing. */
  lemma UriRoundTrip(t: Token)
    ensures ParseUri(EncodeUri(t)) == Ok(t) <==> t.port != 0 && GoodHost(t.host) && GoodTag(t.tag)
  {
    if ParseUri(EncodeUri(t)) == Ok(t) {
      OnlyGoodHosts(t);
    }
    if t.port != 0 && GoodHost(t.host) && GoodTag(t.tag) {
      ParsesBack(t);
    }
  }

  // ---- The size bound ----

  /** How many bytes a character takes in UTF-8. */
  function Utf8Width(c: char): nat {
    var n := c as int;
    if n < 0x80 then 1 else if n < 0x800 then 2 else if n < 0x1_0000 then 3 else 4
  }

  function Utf8Size(s: string): nat {
    if s == "" then 0 else Utf8Size(s[..|s| - 1]) + Utf8Width(s[|s| - 1])
  }

  function FromText(s: string): Result<Token, ManualError> {
    if Utf8Size(s) > MAX_TOKEN_BYTES then Err(Bounds) else ParseUri(s)
  }

  lemma {:induction false} SizeAppend(a: string, b: string)
    ensures Utf8Size(a + b) == Utf8Size(a) + Utf8Size(b)
  {
    if b == "" {
      assert a + b == a;
    } else {
      SizeAppend(a, b[..|b| - 1]);
      assert (a + b)[..|a + b| - 1] == a + b[..|b| - 1];
    }
  }

  predicate Plain(s: string) {
    forall i :: 0 <= i < |s| ==> s[i] as int < 0x80
  }

  lemma {:induction false} PlainSize(s: string)
    requires Plain(s)
    ensures Utf8Size(s) == |s|
  {
    if s != "" { PlainSize(s[..|s| - 1]); }
  }

  lemma SafeIsPlain(s: string)
    requires AllDigits(s) || UrlSafe(s)
    ensures Plain(s)
  {
    forall i | 0 <= i < |s| ensures s[i] as int < 0x80 { assert s[i] in s; }
  }

  lemma {:induction false} HexIsPlain(bytes: seq<byte>)
    ensures Plain(HexOf(bytes))
  {
    if bytes != [] {
      HexIsPlain(bytes[..|bytes| - 1]);
      DigitValue(bytes[|bytes| - 1] / 16);
      DigitValue(bytes[|bytes| - 1] % 16);
    }
  }

  lemma HostTextSize(host: string)
    ensures Utf8Size(HostText(host)) <= Utf8Size(host) + 2
  {
    SizeAppend("[", host);
    SizeAppend("[" + host, "]");
    PlainSize("[");
    PlainSize("]");
  }

  lemma QuerySize(nonce: Nonce, fingerprint: Fingerprint)
    ensures Utf8Size(QueryText(nonce, fingerprint)) == 106
  {
    HexIsPlain(nonce);
    HexIsPlain(fingerprint);
    PlainSize(QueryText(nonce, fingerprint));
  }

  lemma AuthoritySize(t: Token)
    ensures Utf8Size(AuthorityText(t)) <= Utf8Size(t.host) + 115
  {
    hide QueryText;
    PortRoundTrip(t.port);
    PortLength(t.port);
    HostTextSize(t.host);
    QuerySize(t.nonce, t.fingerprint);
    SizeAppend(HostText(t.host), ":");
    SizeAppend(HostText(t.host) + ":", Decimal(t.port));
    SizeAppend(HostText(t.host) + ":" + Decimal(t.port), "?");
    SizeAppend(HostText(t.host) + ":" + Decimal(t.port) + "?", QueryText(t.nonce, t.fingerprint));
    PlainSize(":");
    PlainSize("?");
    SafeIsPlain(Decimal(t.port));
    PlainSize(Decimal(t.port));
  }

  /** With a host of at most 358 bytes, the QR payload fits its bound and parses back. */
  lemma TokenFits(t: Token)
    requires t.port != 0 && GoodHost(t.host) && GoodTag(t.tag) && Utf8Size(t.host) <= 358
    ensures Utf8Size(EncodeUri(t)) <= MAX_TOKEN_BYTES && FromText(EncodeUri(t)) == Ok(t)
  {
    hide AuthorityText;
    var a := AuthorityText(t);
    AuthoritySize(t);
    PlainSize(SCHEME);
    if t.tag.Some? {
      PlainSize("#");
      SafeIsPlain(t.tag.value);
      PlainSize(t.tag.value);
      SizeAppend(a, "#");
      SizeAppend(a + "#", t.tag.value);
      SizeAppend(SCHEME, a + "#" + t.tag.value);
    } else {
      SizeAppend(SCHEME, a);
    }
    UriRoundTrip(t);
  }
}
