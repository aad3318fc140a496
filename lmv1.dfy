/** The LMv1 request signature and the device-creation request that
    addDevices builds for each CSV row (addDevices.py lines 61-85). */
module Lmv1 {
  import opened Common
  import Utf8
  import Hex
  import Base64
  import Decimal

  /** A SHA-256 digest: 32 bytes. */
  type Digest = s: seq<byte> | |s| == 32 witness seq(32, i => 0)

  /** HMAC-SHA256 (RFC 2104) from key bytes and message bytes to a digest. Its
      internals are not modelled: callers pass it in. */
  type Hmac = (seq<byte>, seq<byte>) -> Digest

  /** The values the source reads from its `secret` module. */
  datatype Secrets = Secrets(company: string, accessId: string, accessKey: string)

  const HttpVerb: string := "POST"
  const ResourcePath: string := "/device/devices"
  const QueryParams: string := ""
  /** The body posted for every row: a fixed placeholder, not the row. */
  const Data: string := "{\"key\": \"value\", \"key1\": \"value2\" }"
  const UrlPrefix: string := "https://"
  const UrlHost: string := ".logicmonitor.com/santaba/rest"
  const Scheme: string := "LMv1 "

  /** `str(int(time.time() * 1000))` for a clock reading already in whole
      milliseconds. */
  function Epoch(millis: nat): string {
    Decimal.Show(millis)
  }

  /** The epoch text is digits only and reads back as the clock reading. */
  lemma EpochFacts(millis: nat)
    ensures Decimal.Parse(Epoch(millis)) == Some(millis)
    ensures ':' !in Epoch(millis)
  {
    Decimal.ParseShow(millis);
    Decimal.ShowDigits(millis);
    assert forall i :: 0 <= i < |Epoch(millis)| ==> Epoch(millis)[i] != ':';
  }

  /** `requestVars`: verb, epoch, body and path, with no delimiters. */
  function RequestVars(epoch: string): string {
    HttpVerb + epoch + Data + ResourcePath
  }

  /** Recovers the epoch from a signed message, if the message has the
      verb in front and the body and path behind. */
  function EpochOf(message: string): Option<string> {
    var tail := |Data| + |ResourcePath|;
    if |message| < |HttpVerb| + tail then None
    else if message[..|HttpVerb|] != HttpVerb || message[|message| - tail..] != Data + ResourcePath then None
    else Some(message[|HttpVerb|..|message| - tail])
  }

  /** The signed message determines its epoch: no two epochs sign the same text. */
  lemma EpochOfRequestVars(epoch: string)
    ensures EpochOf(RequestVars(epoch)) == Some(epoch)
  {
    var m := RequestVars(epoch);
    assert m[..|HttpVerb|] == HttpVerb;
    assert m[|m| - (|Data| + |ResourcePath|)..] == Data + ResourcePath;
    assert m[|HttpVerb|..|m| - (|Data| + |ResourcePath|)] == epoch;
  }

  /** The `digest` of the source: lower-case hex text of the HMAC. */
  function HexDigest(key: string, message: string, hmac: Hmac): string {
    Hex.Encode(hmac(Utf8.Encode(key), Utf8.Encode(message)))
  }

  /** `signature`: base64 of the UTF-8 bytes of the hex digest text. */
  function Signature(key: string, message: string, hmac: Hmac): string {
    Base64.Encode(Utf8.Encode(HexDigest(key, message, hmac)))
  }

  /** Undoes the three encodings of a signature, giving back the digest. */
  function DecodeSignature(signature: string): Option<seq<byte>> {
    match Base64.Decode(signature)
    case None => None
    case Some(bytes) =>
      match Utf8.Decode(bytes)
      case None => None
      case Some(text) => Hex.Decode(text)
  }

  /** Sixty-four bytes encode to 88 characters, of which the last two are padding. */
  lemma {:induction false} Base64Of64(bytes: seq<byte>)
    requires |bytes| == 64
    ensures var s := Base64.Encode(bytes);
      |s| == 88 && s[86..] == "==" && forall i :: 0 <= i < 86 ==> Base64.IsAlphabetChar(s[i])
  {
    Base64.EncodeLength(bytes);
    Base64.EncodeShape(bytes);
    var s := Base64.Encode(bytes);
    assert Base64.PadCount(|bytes|) == 2;
    assert Base64.AlphabetBefore(s, 86);
    assert s[86] == '=' && s[87] == '=';
  }

  /** The hex text of a digest is 64 ASCII characters, so 64 UTF-8 bytes. */
  lemma HexDigestBytes(key: string, message: string, hmac: Hmac)
    ensures |HexDigest(key, message, hmac)| == 64
    ensures |Utf8.Encode(HexDigest(key, message, hmac))| == 64
  {
    var h := HexDigest(key, message, hmac);
    Hex.EncodeDigits(hmac(Utf8.Encode(key), Utf8.Encode(message)));
    assert Utf8.IsAscii(h);
    Utf8.EncodeAscii(h);
  }

  /** A 32-byte digest gives 64 hex characters and so 64 ASCII bytes, which
      base64 turns into 88 characters ending in "==". */
  lemma SignatureShape(key: string, message: string, hmac: Hmac)
    ensures var s := Signature(key, message, hmac);
      && |s| == 88
      && s[86..] == "=="
      && (forall i :: 0 <= i < 86 ==> Base64.IsAlphabetChar(s[i]))
  {
    HexDigestBytes(key, message, hmac);
    Base64Of64(Utf8.Encode(HexDigest(key, message, hmac)));
  }

  /** The signature carries exactly the digest of the UTF-8 bytes of the key
      and of the message. */
  lemma {:induction false} SignatureDecodes(key: string, message: string, hmac: Hmac)
    ensures DecodeSignature(Signature(key, message, hmac)) == Some(hmac(Utf8.Encode(key), Utf8.Encode(message)))
  {
    var d := hmac(Utf8.Encode(key), Utf8.Encode(message));
    var h := Hex.Encode(d);
    Base64.DecodeEncode(Utf8.Encode(h));
    Utf8.DecodeEncode(h);
    Hex.DecodeEncode(d);
  }

  /** The signature is not base64 of the raw digest, which has 44 characters. */
  lemma {:induction false} SignatureIsNotRawBase64(key: string, message: string, hmac: Hmac)
    ensures Signature(key, message, hmac) != Base64.Encode(hmac(Utf8.Encode(key), Utf8.Encode(message)))
  {
    SignatureShape(key, message, hmac);
    Base64.EncodeLength(hmac(Utf8.Encode(key), Utf8.Encode(message)));
  }

  /** `auth`: scheme, access id, signature and epoch joined by colons. */
  function Authorization(accessId: string, signature: string, epoch: string): string {
    Scheme + accessId + ":" + signature + ":" + epoch
  }

  function LastIndexOf(s: string, c: char): (r: Option<nat>)
    ensures r.Some? ==> r.value < |s| && s[r.value] == c && forall j :: r.value < j < |s| ==> s[j] != c
    ensures r.None? ==> c !in s
  {
    if |s| == 0 then None
    else if s[|s| - 1] == c then Some(|s| - 1)
    else
      var r := LastIndexOf(s[..|s| - 1], c);
      assert forall j :: 0 <= j < |s| - 1 ==> s[..|s| - 1][j] == s[j];
      r
  }

  /** Splits an Authorization value into access id, signature and epoch,
      reading the epoch and then the signature from the right. */
  function ParseAuthorization(value: string): Option<(string, string, string)> {
    if |value| < |Scheme| || value[..|Scheme|] != Scheme then None
    else
      var rest := value[|Scheme|..];
      match LastIndexOf(rest, ':')
      case None => None
      case Some(j) =>
        var front := rest[..j];
        match LastIndexOf(front, ':')
        case None => None
        case Some(k) => Some((front[..k], front[k + 1..], rest[j + 1..]))
  }

  /** The header gives back its parts whenever signature and epoch hold no
      colon, whatever the access id. */
  lemma AuthorizationRoundTrip(accessId: string, signature: string, epoch: string)
    requires ':' !in signature && ':' !in epoch
    ensures ParseAuthorization(Authorization(accessId, signature, epoch)) == Some((accessId, signature, epoch))
  {
    var v := Authorization(accessId, signature, epoch);
    assert v[..|Scheme|] == Scheme;
    var rest := v[|Scheme|..];
    assert rest == accessId + ":" + signature + ":" + epoch;
    var p := |accessId| + 1 + |signature|;
    assert rest[p] == ':';
    assert forall j :: p < j < |rest| ==> rest[j] == epoch[j - p - 1];
    var j := LastIndexOf(rest, ':').value;
    assert j == p;
    var front := rest[..j];
    assert front == accessId + ":" + signature;
    assert front[|accessId|] == ':';
    assert forall i :: |accessId| < i < |front| ==> front[i] == signature[i - |accessId| - 1];
    assert LastIndexOf(front, ':').value == |accessId|;
    assert front[..|accessId|] == accessId;
    assert front[|accessId| + 1..] == signature;
    assert rest[j + 1..] == epoch;
  }

  /** `url`. */
  function Url(company: string): string {
    UrlPrefix + company + UrlHost + ResourcePath + QueryParams
  }

  function CompanyOf(url: string): Option<string> {
    var tail := |UrlHost| + |ResourcePath| + |QueryParams|;
    if |url| < |UrlPrefix| + tail then None
    else if url[..|UrlPrefix|] != UrlPrefix || url[|url| - tail..] != UrlHost + ResourcePath + QueryParams then None
    else Some(url[|UrlPrefix|..|url| - tail])
  }

  lemma CompanyOfUrl(company: string)
    ensures CompanyOf(Url(company)) == Some(company)
  {
    var u := Url(company);
    var tail := |UrlHost| + |ResourcePath| + |QueryParams|;
    assert u[..|UrlPrefix|] == UrlPrefix;
    assert u[|u| - tail..] == UrlHost + ResourcePath + QueryParams;
    assert u[|UrlPrefix|..|u| - tail] == company;
  }

  /** `headers`, as (name, value) pairs in the dictionary's insertion order. */
  function Headers(auth: string): seq<(string, string)> {
    [("Content-Type", "application/json"), ("Authorization", auth), ("X-Version", "3")]
  }

  /** What `requests.post` is called with. */
  datatype Request = Request(url: string, body: string, headers: seq<(string, string)>)

  /** The request for one row, given the clock reading taken for that row. */
  function BuildRequest(secrets: Secrets, millis: nat, hmac: Hmac): Request {
    var epoch := Epoch(millis);
    var signature := Signature(secrets.accessKey, RequestVars(epoch), hmac);
    Request(Url(secrets.company), Data, Headers(Authorization(secrets.accessId, signature, epoch)))
  }

  /** Everything a request carries: the fixed URL, body and headers, and an
      Authorization value whose epoch is the very reading the signed message
      holds and whose signature decodes to the HMAC of that message. */
  lemma {:induction false} BuildRequestFacts(secrets: Secrets, millis: nat, hmac: Hmac)
    ensures var r := BuildRequest(secrets, millis, hmac);
      && CompanyOf(r.url) == Some(secrets.company)
      && r.body == Data
      && |r.headers| == 3
      && r.headers[0] == ("Content-Type", "application/json")
      && r.headers[1].0 == "Authorization"
      && r.headers[2] == ("X-Version", "3")
      && exists signature, epoch ::
           && ParseAuthorization(r.headers[1].1) == Some((secrets.accessId, signature, epoch))
           && Decimal.Parse(epoch) == Some(millis)
           && |signature| == 88
           && DecodeSignature(signature)
              == Some(hmac(Utf8.Encode(secrets.accessKey), Utf8.Encode(HttpVerb + epoch + Data + ResourcePath)))
  {
    var epoch := Epoch(millis);
    var message := RequestVars(epoch);
    var signature := Signature(secrets.accessKey, message, hmac);
    SignatureShape(secrets.accessKey, message, hmac);
    SignatureDecodes(secrets.accessKey, message, hmac);
    assert ':' !in signature by {
      forall i | 0 <= i < |signature| ensures signature[i] != ':' {
        if i < 86 { assert Base64.IsAlphabetChar(signature[i]); } else { assert signature[86..][i - 86] == '='; }
      }
    }
    EpochFacts(millis);
    AuthorizationRoundTrip(secrets.accessId, signature, epoch);
    CompanyOfUrl(secrets.company);
    var r := BuildRequest(secrets, millis, hmac);
    assert ParseAuthorization(r.headers[1].1) == Some((secrets.accessId, signature, epoch));
  }
}
