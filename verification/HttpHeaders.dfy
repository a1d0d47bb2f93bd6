/** The request headers: http_headers_size says how large a buffer http_build_request needs, without
    formatting anything. */
module HttpHeaders {

  const VERSION_LINE := " HTTP/1.1\r\n"
  const USER_AGENT := "User-Agent: nRF91-Serial-Modem\r\n"
  const ACCEPT := "Accept: */*\r\n"
  const INT_MAX := 2147483647

  datatype Request = Request(verb: string, path: string, hostname: string, bodyLen: nat, extra: string)

  /** %d of a number that is not negative. */
  function Decimal(n: nat): string
  {
    (if n < 10 then "" else Decimal(n / 10)) + ["0123456789"[n % 10]]
  }

  /** The number that a string of digits stands for. */
  function Value(s: string): int
  {
    if s == "" then 0 else 10 * Value(s[..|s| - 1]) + (s[|s| - 1] as int - '0' as int)
  }

  lemma {:induction false} DecimalIs(n: nat)
    ensures Value(Decimal(n)) == n
  {
    var init, last := if n < 10 then "" else Decimal(n / 10), "0123456789"[n % 10];
    DigitIs(n % 10);
    assert Decimal(n) == init + [last];
    assert (init + [last])[..|init|] == init;
    if n >= 10 {
      DecimalIs(n / 10);
    }
  }

  lemma DigitIs(k: nat)
    requires k < 10
    ensures "0123456789"[k] as int - '0' as int == k
  {
  }

  function Pow10(k: nat): nat
  {
    if k == 0 then 1 else 10 * Pow10(k - 1)
  }

  lemma {:induction false} DecimalLength(n: nat, k: nat)
    requires k >= 1
    ensures |Decimal(n)| <= k <==> n < Pow10(k)
  {
    if n >= 10 && k > 1 {
      DecimalLength(n / 10, k - 1);
    } else {
      Pow10AtLeast(k);
    }
  }

  lemma {:induction false} Pow10AtLeast(k: nat)
    requires k >= 1
    ensures Pow10(k) >= 10 && Pow10(1) == 10
  {
    if k == 1 {
    } else {
      Pow10AtLeast(k - 1);
    }
  }

  /** What http_build_request is to produce. */
  function Headers(r: Request): string
  {
    Fixed(r) + BodyLine(r) + r.extra + "\r\n"
  }

  function Fixed(r: Request): string
  {
    r.verb + " " + r.path + VERSION_LINE + "Host: " + r.hostname + "\r\n" + USER_AGENT + ACCEPT
  }

  function BodyLine(r: Request): string
  {
    if r.bodyLen > 0 then "Content-Length: " + Decimal(r.bodyLen) + "\r\n" else ""
  }

  /** http_headers_size: the longest number stands for the body length. */
  function HeadersSize(r: Request): nat
  {
    |r.verb| + 1 + |r.path| + |VERSION_LINE| + |"Host: "| + |r.hostname| + |"\r\n"| + |USER_AGENT| + |ACCEPT|
    + (if r.bodyLen > 0 then |"Content-Length: 2147483647\r\n"| else 0) + |r.extra| + |"\r\n"| + 1
  }

  /** The size is enough for the headers and a final NUL, and exact up to the digits of the body
      length. */
  lemma HeadersFit(r: Request)
    requires r.bodyLen <= INT_MAX
    ensures |Headers(r)| + 1 <= HeadersSize(r)
    ensures HeadersSize(r) - |Headers(r)| - 1 == if r.bodyLen > 0 then 10 - |Decimal(r.bodyLen)| else 0
  {
    assert Pow10(10) == 10_000_000_000 by {
      assert Pow10(5) == 100_000;
    }
    DecimalLength(r.bodyLen, 10);
  }

  /** snprintf(buf + at, buf_len - at, "%s", s): it writes what fits in front of a NUL and returns the
      length of s. */
  method Snprintf(buf: array<char>, at: nat, s: string) returns (n: nat)
    requires at <= buf.Length
    modifies buf
    ensures n == |s|
    ensures at + |s| < buf.Length ==> buf[..at + |s|] == old(buf[..at]) + s && buf[at + |s|] == '\0'
    ensures buf[..at] == old(buf[..at])
  {
    n := |s|;
    var room := buf.Length - at;
    if room > 0 {
      var fits := if |s| < room then |s| else room - 1;
      forall k | 0 <= k < fits {
        buf[at + k] := s[k];
      }
      buf[at + fits] := '\0';
    }
  }

  /** http_build_request in a buffer of http_headers_size bytes: nothing is cut off. */
  method BuildRequest(r: Request, buf: array<char>) returns (len: nat)
    requires r.bodyLen <= INT_MAX && buf.Length == HeadersSize(r)
    modifies buf
    ensures len == |Headers(r)| < buf.Length && buf[..len] == Headers(r) && buf[len] == '\0'
  {
    HeadersFit(r);
    len := Append4(buf, Fixed(r), BodyLine(r), r.extra, "\r\n");
  }

  /** The four calls of snprintf. The second is made only if there is a body. */
  method Append4(buf: array<char>, fixed: string, bodyLine: string, extra: string, blank: string) returns (len: nat)
    requires |fixed| + |bodyLine| + |extra| + |blank| < buf.Length
    modifies buf
    ensures len == |fixed| + |bodyLine| + |extra| + |blank|
    ensures buf[..len] == fixed + bodyLine + extra + blank && buf[len] == '\0'
  {
    len := Snprintf(buf, 0, fixed);
    if bodyLine != "" {
      var n := Snprintf(buf, len, bodyLine);
      len := len + n;
    }
    assert buf[..len] == fixed + bodyLine;
    var n := Snprintf(buf, len, extra);
    len := len + n;
    n := Snprintf(buf, len, blank);
    len := len + n;
  }
}
