/** Appendix A of RFC 7541, line by line; src/hpack/tables.h has the names and the values in two separate lists. */
module AppendixA {
  import opened Bits
  import opened TableSpec
  import opened HexOctets
  import opened HpackInstance

  /** A line of the static table: name and value. */
  function Line(i: nat): (l: (string, string))
    requires 1 <= i <= 61
  {
    match i
    case 1 => (":authority", "")
    case 2 => (":method", "GET")
    case 3 => (":method", "POST")
    case 4 => (":path", "/")
    case 5 => (":path", "/index.html")
    case 6 => (":scheme", "http")
    case 7 => (":scheme", "https")
    case 8 => (":status", "200")
    case 9 => (":status", "204")
    case 10 => (":status", "206")
    case 11 => (":status", "304")
    case 12 => (":status", "400")
    case 13 => (":status", "404")
    case 14 => (":status", "500")
    case 15 => ("accept-charset", "")
    case 16 => ("accept-encoding", "gzip, deflate")
    case 17 => ("accept-language", "")
    case 18 => ("accept-ranges", "")
    case 19 => ("accept", "")
    case 20 => ("access-control-allow-origin", "")
    case 21 => ("age", "")
    case 22 => ("allow", "")
    case 23 => ("authorization", "")
    case 24 => ("cache-control", "")
    case 25 => ("content-disposition", "")
    case 26 => ("content-encoding", "")
    case 27 => ("content-language", "")
    case 28 => ("content-length", "")
    case 29 => ("content-location", "")
    case 30 => ("content-range", "")
    case 31 => ("content-type", "")
    case 32 => ("cookie", "")
    case 33 => ("date", "")
    case 34 => ("etag", "")
    case 35 => ("expect", "")
    case 36 => ("expires", "")
    case 37 => ("from", "")
    case 38 => ("host", "")
    case 39 => ("if-match", "")
    case 40 => ("if-modified-since", "")
    case 41 => ("if-none-match", "")
    case 42 => ("if-range", "")
    case 43 => ("if-unmodified-since", "")
    case 44 => ("last-modified", "")
    case 45 => ("link", "")
    case 46 => ("location", "")
    case 47 => ("max-forwards", "")
    case 48 => ("proxy-authenticate", "")
    case 49 => ("proxy-authorization", "")
    case 50 => ("range", "")
    case 51 => ("referer", "")
    case 52 => ("refresh", "")
    case 53 => ("retry-after", "")
    case 54 => ("server", "")
    case 55 => ("set-cookie", "")
    case 56 => ("strict-transport-security", "")
    case 57 => ("transfer-encoding", "")
    case 58 => ("user-agent", "")
    case 59 => ("vary", "")
    case 60 => ("via", "")
    case _ => ("www-authenticate", "")
  }

  predicate SameLine(i: nat)
    requires 1 <= i <= 61
  {
    Name(i - 1) == Line(i).0 && Value(i - 1) == Line(i).1
  }

  lemma LinesBelow9(i: nat)
    requires 1 <= i < 9
    ensures SameLine(i)
  {
  }

  lemma LinesBelow17(i: nat)
    requires 9 <= i < 17
    ensures SameLine(i)
  {
  }

  lemma LinesBelow25(i: nat)
    requires 17 <= i < 25
    ensures SameLine(i)
  {
  }

  lemma LinesBelow33(i: nat)
    requires 25 <= i < 33
    ensures SameLine(i)
  {
  }

  lemma LinesBelow41(i: nat)
    requires 33 <= i < 41
    ensures SameLine(i)
  {
  }

  lemma LinesBelow49(i: nat)
    requires 41 <= i < 49
    ensures SameLine(i)
  {
  }

  lemma LinesBelow57(i: nat)
    requires 49 <= i < 57
    ensures SameLine(i)
  {
  }

  lemma LinesBelow62(i: nat)
    requires 57 <= i < 62
    ensures SameLine(i)
  {
  }

  /** The static table of the server is that of Appendix A. */
  lemma StaticIsAppendixA(i: nat)
    requires 1 <= i <= 61
    ensures STATIC[i - 1] == Entry(Ascii(Line(i).0), Ascii(Line(i).1))
  {
    hide Line, Name, Value, Ascii;
    if i < 9 {
      LinesBelow9(i);
    } else if i < 17 {
      LinesBelow17(i);
    } else if i < 25 {
      LinesBelow25(i);
    } else if i < 33 {
      LinesBelow33(i);
    } else if i < 41 {
      LinesBelow41(i);
    } else if i < 49 {
      LinesBelow49(i);
    } else if i < 57 {
      LinesBelow57(i);
    } else {
      LinesBelow62(i);
    }
  }
}
