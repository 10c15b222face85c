/**
 The pairing URI as text: how a token is spelled, what the parser refuses and with which error, and what it makes of
 queries that the encoder would not write.
 */
module UriText {
  import opened Prelude
  import opened ManualUri

  // ---- Spelling ----

  /** Two lower-case digits for every byte, the high one first. */
  lemma {:induction false} HexDigit(bytes: seq<byte>, i: nat)
    requires i < |bytes|
    ensures HexOf(bytes)[2 * i] == "0123456789abcdef"[bytes[i] / 16]
    ensures HexOf(bytes)[2 * i + 1] == "0123456789abcdef"[bytes[i] % 16]
  {
    if i < |bytes| - 1 { HexDigit(bytes[..|bytes| - 1], i); }
  }

  /** Ports are spelled in decimal digits without leading zeros. */
  lemma {:induction false} DecimalDigits(n: nat)
    ensures AllDigits(Decimal(n)) && DigitsValue(Decimal(n)) == Some(n)
    ensures Decimal(n)[0] == '0' <==> n == 0
  {
    DecimalRoundTrip(n);
    if n >= 10 { DecimalDigits(n / 10); }
  }

  /** The sample token of the format, spelled out; its nonce and fingerprint are in hex. */
  lemma SampleText(nonce: Nonce, fingerprint: Fingerprint)
    ensures EncodeUri(Token("192.168.1.5", 9000, nonce, fingerprint, Some("Living-Room-DAC"))) ==
              "wdr://" + ((("192.168.1.5" + ":" + "9000") + "?"
                           + ("nonce=" + HexOf(nonce) + "&" + ("fp=" + HexOf(fingerprint))))
                          + "#" + "Living-Room-DAC")
    ensures EncodeUri(Token("::1", 1234, nonce, fingerprint, None)) ==
              "wdr://" + ((("[" + "::1" + "]") + ":" + "1234") + "?"
                          + ("nonce=" + HexOf(nonce) + "&" + ("fp=" + HexOf(fingerprint))))
  {
    hide HexOf;
    Port9000();
    Port1234();
    hide Decimal;
    assert ':' !in "192.168.1.5";
    assert "::1"[0] == ':' && ':' in "::1";
  }

  lemma Port9000()
    ensures Decimal(9000) == "9000"
  {
    assert Decimal(9) == "9" && Decimal(90) == "90" && Decimal(900) == "900";
  }

  lemma Port1234()
    ensures Decimal(1234) == "1234"
  {
    assert Decimal(1) == "1" && Decimal(12) == "12" && Decimal(123) == "123";
  }

  // ---- Refusals ----

  /** Exactly what does not start with the scheme is refused for its scheme. */
  lemma SchemeExactly(s: string)
    ensures ParseUri(s) == Err(Scheme) <==> !("wdr://" <= s)
  {
    if "wdr://" <= s {
      var (authority, tag) := CutAt(s[|SCHEME|..], '#');
      NoSchemeError(authority, tag);
    }
  }

  lemma {:induction false} ParamsNoScheme(p: Params, kvs: seq<string>)
    ensures ParamsOf(p, kvs) != Err(Scheme)
    decreases kvs
  {
    hide DehexOf, CutAt;
    if kvs != [] {
      var one := Param(p, kvs[0]);
      if one.Ok? { ParamsNoScheme(one.value, kvs[1..]); }
    }
  }

  lemma NoSchemeError(authority: string, tag: Option<string>)
    ensures ParseAuthority(authority, tag) != Err(Scheme)
  {
    hide TrimSlashes, Split, ParseU16, CutAt, LastIndexOf, UrlSafe;
    var (hostport, query) := CutAt(authority, '?');
    ParamsNoScheme(Params(None, None), Split(if query.Some? then query.value else "", '&'));
  }

  /** What becomes of a token with a good host: each refusal has its own error, and an empty label is dropped. */
  lemma OutcomeExactly(t: Token)
    requires GoodHost(t.host)
    ensures ParseUri(EncodeUri(t)) ==
              if t.port == 0 then Err(Port)
              else if t.tag.None? || t.tag.value == "" then Ok(t.(tag := None))
              else if |t.tag.value| > 32 then Err(LabelTooLong)
              else if !UrlSafe(t.tag.value) then Err(Malformed)
              else Ok(t)
  {
    hide ParseHostPort, ParseQuery, HostPortText, QueryText, CutAt, EncodeUri;
    AuthorityFound(t);
    QueryRoundTrip(t.nonce, t.fingerprint);
    assert AuthorityText(t) != "";
    if t.port == 0 { PortZero(t.host); } else { HostRoundTrip(t.host, t.port); }
  }

  lemma PortZero(host: string)
    requires GoodHost(host)
    ensures ParseHostPort(HostPortText(host, 0)) == Err(Port)
  {
    hide SplitHost, TrimSlashes, ParseU16, Decimal;
    var hp, d := HostPortText(host, 0), Decimal(0);
    PortEnds(host, 0);
    PortRoundTrip(0);
    NothingToTrim(hp);
    if ':' in host { SplitBracketed(host, d); } else { SplitPlain(host, d); }
  }

  // ---- Queries ----

  /** Parameters are taken one after the other. */
  lemma {:induction false} ParamsAppend(p: Params, a: seq<string>, b: seq<string>)
    ensures ParamsOf(p, a + b) ==
              match ParamsOf(p, a)
              case Err(e) => Err(e)
              case Ok(q) => ParamsOf(q, b)
    decreases a
  {
    hide Param;
    if a == [] {
      assert a + b == b;
    } else {
      assert (a + b)[0] == a[0] && (a + b)[1..] == a[1..] + b;
      var one := Param(p, a[0]);
      if one.Ok? { ParamsAppend(one.value, a[1..], b); }
    }
  }

  lemma OneParam(p: Params, kv: string)
    ensures ParamsOf(p, [kv]) == Param(p, kv)
  {
    hide Param;
    assert [kv][1..] == [];
  }

  function NonceParam(nonce: Nonce): string {
    "nonce=" + HexOf(nonce)
  }

  function FpParam(fingerprint: Fingerprint): string {
    "fp=" + HexOf(fingerprint)
  }

  lemma ParamsRead(p: Params, nonce: Nonce, fingerprint: Fingerprint)
    ensures ParamsOf(p, [NonceParam(nonce)]) == Ok(p.(nonce := Some(nonce)))
    ensures ParamsOf(p, [FpParam(fingerprint)]) == Ok(p.(fingerprint := Some(fingerprint)))
  {
    hide HexOf, Param;
    ParamRoundTrip(p, nonce, fingerprint);
    assert "nonce" + "=" == "nonce=" && "fp" + "=" == "fp=";
    OneParam(p, NonceParam(nonce));
    OneParam(p, FpParam(fingerprint));
  }

  /** Whatever stands before it, the last nonce and the last fingerprint are the ones that count. */
  lemma LaterWins(kvs: seq<string>, nonce: Nonce, fingerprint: Fingerprint)
    requires ParamsOf(Params(None, None), kvs).Ok?
    ensures ParamsOf(Params(None, None), kvs + [NonceParam(nonce)])
         == Ok(ParamsOf(Params(None, None), kvs).value.(nonce := Some(nonce)))
    ensures ParamsOf(Params(None, None), kvs + [FpParam(fingerprint)])
         == Ok(ParamsOf(Params(None, None), kvs).value.(fingerprint := Some(fingerprint)))
  {
    hide NonceParam, FpParam;
    var p := ParamsOf(Params(None, None), kvs).value;
    ParamsAppend(Params(None, None), kvs, [NonceParam(nonce)]);
    ParamsAppend(Params(None, None), kvs, [FpParam(fingerprint)]);
    ParamsRead(p, nonce, fingerprint);
  }

  /** A parameter with another key changes nothing, wherever it stands; one without a value spoils the query. */
  lemma OtherParams(p: Params, a: seq<string>, k: string, v: string, b: seq<string>)
    requires '=' !in k && k != "nonce" && k != "fp" && k != ""
    ensures ParamsOf(p, a + [k + "=" + v] + b) == ParamsOf(p, a + b)
    ensures ParamsOf(p, a).Ok? ==> ParamsOf(p, a + [k] + b) == Err(Malformed)
  {
    hide ParamsOf, CutAt;
    ParamsAppend(p, a, b);
    ParamsAppend(p, a, [k + "=" + v] + b);
    ParamsAppend(p, a, [k] + b);
    assert a + [k + "=" + v] + b == a + ([k + "=" + v] + b) && a + [k] + b == a + ([k] + b);
    var r := ParamsOf(p, a);
    if r.Ok? {
      ParamsAppend(r.value, [k + "=" + v], b);
      ParamsAppend(r.value, [k], b);
      OneParam(r.value, k + "=" + v);
      OneParam(r.value, k);
      ParamValue(r.value, k, v);
      CutNowhere(k, '=');
    }
  }

  // ---- Liberties of the parser ----

  /** A port may start with a plus sign. */
  lemma PlusBeforePort(port: u16)
    ensures ParseU16("+" + Decimal(port)) == Some(port)
  {
    DecimalDigits(port);
    hide Decimal, DigitsValue;
    var s := "+" + Decimal(port);
    assert s[0] == '+' && s[1..] == Decimal(port);
  }

  /** A hex pair may start with a plus sign, and hex may be in upper case. */
  lemma PlusAndUpperCase(d: nat)
    requires d < 16
    ensures PairValue('+', "0123456789abcdef"[d]) == Some(d) && PairValue('+', "0123456789ABCDEF"[d]) == Some(d)
    ensures PairValue("0123456789ABCDEF"[d], '0') == Some(16 * d)
  {
  }

  /** Of a host without brackets only the last colon separates the port. */
  lemma LastColonSeparates(host: string, port: u16)
    requires host != "" && host[0] != '[' && host[0] != '/' && port != 0
    ensures ParseHostPort(host + ":" + Decimal(port)) == Ok((host, port))
  {
    hide SplitHost, TrimSlashes, ParseU16, Decimal;
    var hp, d := host + ":" + Decimal(port), Decimal(port);
    PortRoundTrip(port);
    assert d[|d| - 1] in d && hp[|hp| - 1] == d[|d| - 1];
    assert hp[0] == host[0];
    NothingToTrim(hp);
    SplitPlain(host, d);
  }

  /** Exactly what exceeds 512 bytes is refused for its size. */
  lemma BoundsExactly(s: string)
    ensures FromText(s) == Err(Bounds) <==> Utf8Size(s) > 512
  {
    hide ParseAuthority, CutAt;
    var (authority, tag) := if "wdr://" <= s then CutAt(s[|SCHEME|..], '#') else ("", None);
    NoBoundsError(authority, tag);
  }

  lemma {:induction false} ParamsNoBounds(p: Params, kvs: seq<string>)
    ensures ParamsOf(p, kvs) != Err(Bounds)
    decreases kvs
  {
    hide DehexOf, CutAt;
    if kvs != [] {
      var one := Param(p, kvs[0]);
      if one.Ok? { ParamsNoBounds(one.value, kvs[1..]); }
    }
  }

  lemma NoBoundsError(authority: string, tag: Option<string>)
    ensures ParseAuthority(authority, tag) != Err(Bounds)
  {
    hide TrimSlashes, Split, ParseU16, CutAt, LastIndexOf, UrlSafe;
    var (hostport, query) := CutAt(authority, '?');
    ParamsNoBounds(Params(None, None), Split(if query.Some? then query.value else "", '&'));
  }
}
