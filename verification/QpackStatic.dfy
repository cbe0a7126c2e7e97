/** The static table of QPACK (Appendix A of RFC 9204) and the searches over it. */
module QpackStatic {
  import opened Bytes
  import opened HttpText

  const STATIC_COUNT := 99

  function Entry(i: nat): (string, string) {
    match i
    case 0 => (":authority", "")
    case 1 => (":path", "/")
    case 2 => ("age", "0")
    case 3 => ("content-disposition", "")
    case 4 => ("content-length", "0")
    case 5 => ("cookie", "")
    case 6 => ("date", "")
    case 7 => ("etag", "")
    case 8 => ("if-modified-since", "")
    case 9 => ("if-none-match", "")
    case 10 => ("last-modified", "")
    case 11 => ("link", "")
    case 12 => ("location", "")
    case 13 => ("referer", "")
    case 14 => ("set-cookie", "")
    case 15 => (":method", "CONNECT")
    case 16 => (":method", "DELETE")
    case 17 => (":method", "GET")
    case 18 => (":method", "HEAD")
    case 19 => (":method", "OPTIONS")
    case 20 => (":method", "POST")
    case 21 => (":method", "PUT")
    case 22 => (":scheme", "http")
    case 23 => (":scheme", "https")
    case 24 => (":status", "103")
    case 25 => (":status", "200")
    case 26 => (":status", "304")
    case 27 => (":status", "404")
    case 28 => (":status", "503")
    case 29 => ("accept", "*/*")
    case 30 => ("accept", "application/dns-message")
    case 31 => ("accept-encoding", "gzip, deflate, br")
    case 32 => ("accept-ranges", "bytes")
    case 33 => ("access-control-allow-headers", "cache-control")
    case 34 => ("access-control-allow-headers", "content-type")
    case 35 => ("access-control-allow-origin", "*")
    case 36 => ("cache-control", "max-age=0")
    case 37 => ("cache-control", "max-age=2592000")
    case 38 => ("cache-control", "max-age=604800")
    case 39 => ("cache-control", "no-cache")
    case 40 => ("cache-control", "no-store")
    case 41 => ("cache-control", "public, max-age=31536000")
    case 42 => ("content-encoding", "br")
    case 43 => ("content-encoding", "gzip")
    case 44 => ("content-type", "application/dns-message")
    case 45 => ("content-type", "application/javascript")
    case 46 => ("content-type", "application/json")
    case 47 => ("content-type", "application/x-www-form-urlencoded")
    case 48 => ("content-type", "image/gif")
    case 49 => ("content-type", "image/jpeg")
    case 50 => ("content-type", "image/png")
    case 51 => ("content-type", "text/css")
    case 52 => ("content-type", "text/html; charset=utf-8")
    case 53 => ("content-type", "text/plain")
    case 54 => ("content-type", "text/plain;charset=utf-8")
    case 55 => ("range", "bytes=0-")
    case 56 => ("strict-transport-security", "max-age=31536000")
    case 57 => ("strict-transport-security", "max-age=31536000; includesubdomains")
    case 58 => ("strict-transport-security", "max-age=31536000; includesubdomains; preload")
    case 59 => ("vary", "accept-encoding")
    case 60 => ("vary", "origin")
    case 61 => ("x-content-type-options", "nosniff")
    case 62 => ("x-xss-protection", "1; mode=block")
    case 63 => (":status", "100")
    case 64 => (":status", "204")
    case 65 => (":status", "206")
    case 66 => (":status", "302")
    case 67 => (":status", "400")
    case 68 => (":status", "403")
    case 69 => (":status", "421")
    case 70 => (":status", "425")
    case 71 => (":status", "500")
    case 72 => ("accept-language", "")
    case 73 => ("access-control-allow-credentials", "FALSE")
    case 74 => ("access-control-allow-credentials", "TRUE")
    case 75 => ("access-control-allow-headers", "*")
    case 76 => ("access-control-allow-methods", "get")
    case 77 => ("access-control-allow-methods", "get, post, options")
    case 78 => ("access-control-allow-methods", "options")
    case 79 => ("access-control-expose-headers", "content-length")
    case 80 => ("access-control-request-headers", "content-type")
    case 81 => ("access-control-request-method", "get")
    case 82 => ("access-control-request-method", "post")
    case 83 => ("alt-svc", "clear")
    case 84 => ("authorization", "")
    case 85 => ("content-security-policy", "script-src 'none'; object-src 'none'; base-uri 'none'")
    case 86 => ("early-data", "1")
    case 87 => ("expect-ct", "")
    case 88 => ("forwarded", "")
    case 89 => ("if-range", "")
    case 90 => ("origin", "")
    case 91 => ("purpose", "prefetch")
    case 92 => ("server", "")
    case 93 => ("timing-allow-origin", "*")
    case 94 => ("upgrade-insecure-requests", "1")
    case 95 => ("user-agent", "")
    case 96 => ("x-forwarded-for", "")
    case 97 => ("x-frame-options", "deny")
    case 98 => ("x-frame-options", "sameorigin")
    case _ => ("", "")
  }

  function EntryName(i: nat): ByteSeq { Ascii(Entry(i).0) }

  function EntryValue(i: nat): ByteSeq { Ascii(Entry(i).1) }

  /** The least index from `i` up at which `p` holds. */
  function FirstIndex(p: nat -> bool, i: nat): (r: Option<nat>)
    requires i <= STATIC_COUNT
    ensures r.Some? ==> i <= r.value < STATIC_COUNT && p(r.value)
    ensures forall k :: i <= k < (if r.Some? then r.value else STATIC_COUNT) ==> !p(k)
    decreases STATIC_COUNT - i
  {
    if i == STATIC_COUNT then None else if p(i) then Some(i) else FirstIndex(p, i + 1)
  }

  function NameIndex(name: ByteSeq): (r: Option<nat>)
    ensures r.Some? ==> r.value < STATIC_COUNT && EntryName(r.value) == name
    ensures forall k :: 0 <= k < (if r.Some? then r.value else STATIC_COUNT) ==> EntryName(k) != name
  {
    var p := (i: nat) => EntryName(i) == name;
    assert forall k: nat :: p(k) <==> EntryName(k) == name;
    FirstIndex(p, 0)
  }

  function Index(name: ByteSeq, value: ByteSeq): (r: Option<nat>)
    ensures r.Some? ==> r.value < STATIC_COUNT
                        && EntryName(r.value) == name && EntryValue(r.value) == value
    ensures forall k :: 0 <= k < (if r.Some? then r.value else STATIC_COUNT) ==>
                          !(EntryName(k) == name && EntryValue(k) == value)
  {
    var p := (i: nat) => EntryName(i) == name && EntryValue(i) == value;
    assert forall k: nat :: p(k) <==> EntryName(k) == name && EntryValue(k) == value;
    FirstIndex(p, 0)
  }

  /** The first entry with this name. */
  method FindName(name: ByteSeq) returns (r: Option<nat>)
    ensures r == NameIndex(name)
  {
    hide Entry;
    for i := 0 to STATIC_COUNT
      invariant forall k :: 0 <= k < i ==> EntryName(k) != name
    {
      if EntryName(i) == name {
        return Some(i);
      }
    }
    return None;
  }

  /** The first entry with this name and value. */
  method Find(name: ByteSeq, value: ByteSeq) returns (r: Option<nat>)
    ensures r == Index(name, value)
  {
    hide Entry;
    for i := 0 to STATIC_COUNT
      invariant forall k :: 0 <= k < i ==> !(EntryName(k) == name && EntryValue(k) == value)
    {
      if EntryName(i) == name && EntryValue(i) == value {
        return Some(i);
      }
    }
    return None;
  }
}
