/** The URL a request goes to (`_endpoint`) and the request headers that
    `_set_headers` attaches, with the signature taken as given. */
module Endpoint {

  datatype Option<T> = None | Some(value: T)

  /** The region the class starts with (`public $region = 'us-east-1'`). */
  const DefaultRegion: string := "us-east-1"

  const UrlPrefix: string := "https://email."
  const UrlSuffix: string := ".amazonaws.com"

  /** `'https://email.' . $this->region . '.amazonaws.com'`. */
  function EndpointFor(region: string): string
  {
    UrlPrefix + region + UrlSuffix
  }

  /** The region an endpoint URL names, if it is one. */
  function RegionOf(url: string): Option<string>
  {
    if |url| >= |UrlPrefix| + |UrlSuffix|
       && url[..|UrlPrefix|] == UrlPrefix
       && url[|url| - |UrlSuffix|..] == UrlSuffix
    then Some(url[|UrlPrefix|..|url| - |UrlSuffix|])
    else None
  }

  /** The endpoint names its region. */
  lemma RegionOfEndpoint(region: string)
    ensures RegionOf(EndpointFor(region)) == Some(region)
  {
    var url := EndpointFor(region);
    assert url[..|UrlPrefix|] == UrlPrefix;
    assert url[|url| - |UrlSuffix|..] == UrlSuffix;
    assert url[|UrlPrefix|..|url| - |UrlSuffix|] == region;
  }

  /** Every URL that names a region is that region's endpoint. */
  lemma EndpointOfRegion(url: string, region: string)
    requires RegionOf(url) == Some(region)
    ensures EndpointFor(region) == url
  {
    assert url == url[..|UrlPrefix|] + url[|UrlPrefix|..|url| - |UrlSuffix|] + url[|url| - |UrlSuffix|..];
  }

  /** Without a region override the endpoint is the us-east-1 one. */
  lemma DefaultEndpoint()
    ensures EndpointFor(DefaultRegion) == "https://email.us-east-1.amazonaws.com"
    ensures RegionOf("https://email.us-east-1.amazonaws.com") == Some(DefaultRegion)
  {
    RegionOfEndpoint(DefaultRegion);
  }

  const AuthPrefix: string := "AWS3-HTTPS AWSAccessKeyId="
  const AuthMiddle: string := ", Algorithm=HmacSHA256, Signature="

  /** The `X-Amzn-Authorization` value for an access key and a signature. */
  function Authorization(accessKey: string, signature: string): string
  {
    AuthPrefix + accessKey + AuthMiddle + signature
  }

  /** The signature an authorization value carries for a given access key. */
  function SignatureOf(accessKey: string, auth: string): Option<string>
  {
    var head := AuthPrefix + accessKey + AuthMiddle;
    if |auth| >= |head| && auth[..|head|] == head then Some(auth[|head|..]) else None
  }

  /** The authorization value carries exactly the signature it was built
      from, behind the access key. */
  lemma SignatureOfAuthorization(accessKey: string, signature: string)
    ensures SignatureOf(accessKey, Authorization(accessKey, signature)) == Some(signature)
  {
    var head := AuthPrefix + accessKey + AuthMiddle;
    assert Authorization(accessKey, signature) == head + signature;
  }

  /** An authorization value for the access key is built from the signature
      it carries. */
  lemma AuthorizationOfSignature(accessKey: string, auth: string, signature: string)
    requires SignatureOf(accessKey, auth) == Some(signature)
    ensures Authorization(accessKey, signature) == auth
  {
    var head := AuthPrefix + accessKey + AuthMiddle;
    assert auth == auth[..|head|] + auth[|head|..];
  }

  datatype Header = Header(name: string, value: string)

  /** The three headers of `_set_headers`, in the order it sets them. */
  function Headers(accessKey: string, date: string, signature: string): seq<Header>
  {
    [Header("Content-Type", "application/x-www-form-urlencoded"),
     Header("Date", date),
     Header("X-Amzn-Authorization", Authorization(accessKey, signature))]
  }

  /** The value of the first header called name. */
  function HeaderValue(headers: seq<Header>, name: string): Option<string>
  {
    if headers == [] then None
    else if headers[0].name == name then Some(headers[0].value)
    else HeaderValue(headers[1..], name)
  }

  /** What each header of a request says. */
  lemma HeaderValues(accessKey: string, date: string, signature: string)
    ensures HeaderValue(Headers(accessKey, date, signature), "Content-Type") == Some("application/x-www-form-urlencoded")
    ensures HeaderValue(Headers(accessKey, date, signature), "Date") == Some(date)
    ensures HeaderValue(Headers(accessKey, date, signature), "X-Amzn-Authorization") == Some(Authorization(accessKey, signature))
  {
    var hs := Headers(accessKey, date, signature);
    assert "Date" != "Content-Type" by { assert |"Date"| != |"Content-Type"|; }
    assert "X-Amzn-Authorization" != "Content-Type" by { assert "X-Amzn-Authorization"[0] != "Content-Type"[0]; }
    assert "X-Amzn-Authorization" != "Date" by { assert "X-Amzn-Authorization"[0] != "Date"[0]; }
    assert HeaderValue(hs, "X-Amzn-Authorization") == HeaderValue(hs[1..], "X-Amzn-Authorization");
    assert HeaderValue(hs[1..], "X-Amzn-Authorization") == HeaderValue(hs[2..], "X-Amzn-Authorization");
    assert hs[2..][0] == hs[2];
  }
}
