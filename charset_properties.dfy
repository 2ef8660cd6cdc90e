/** Properties of the charset lookup of MessageParser.getCharsetFromHeader: how the pattern
    `charset="?([0-9a-zA-Z\-]+)` picks the name out of the header, and the header examples
    the project's own tests use. */
module CharsetProperties {
  import opened Wrappers
  import opened Strings
  import opened Mime
  import opened Extraction

  lemma {:induction false} NoMatchBefore(s: string, i: nat)
    requires i <= |s|
    requires 'c' !in s[..i]
    ensures FindCharsetName(s) == FindCharsetName(s[i..])
  {
    if i > 0 {
      assert s[0] in s[..i];
      assert s[1..][..i - 1] == s[1..i];
      assert forall x :: x in s[1..i] ==> x in s[..i];
      NoMatchBefore(s[1..], i - 1);
      assert s[1..][i - 1..] == s[i..];
    } else {
      assert s[0..] == s;
    }
  }

  predicate IsCharsetName(n: string) {
    n != [] && forall i :: 0 <= i < |n| ==> IsCharsetNameChar(n[i])
  }

  lemma {:induction false} NameRunOfName(n: string, tail: string)
    requires forall i :: 0 <= i < |n| ==> IsCharsetNameChar(n[i])
    requires tail == [] || !IsCharsetNameChar(tail[0])
    ensures NameRun(n + tail) == n
  {
    if n != [] {
      assert (n + tail)[1..] == n[1..] + tail;
      NameRunOfName(n[1..], tail);
    } else {
      assert n + tail == tail;
    }
  }

  lemma MatchAtKeyQuoted(n: string, tail: string)
    requires IsCharsetName(n)
    requires tail == [] || !IsCharsetNameChar(tail[0])
    ensures CharsetMatchAt(CharsetKey + "\"" + n + tail) == Some(n)
  {
    var rest := "\"" + n + tail;
    var s := CharsetKey + rest;
    assert s == CharsetKey + "\"" + n + tail;
    assert s[..|CharsetKey|] == CharsetKey;
    assert s[|CharsetKey|..] == rest;
    assert rest[1..] == n + tail;
    NameRunOfName(n, tail);
  }

  lemma MatchAtKeyPlain(n: string, tail: string)
    requires IsCharsetName(n)
    requires tail == [] || !IsCharsetNameChar(tail[0])
    ensures CharsetMatchAt(CharsetKey + n + tail) == Some(n)
  {
    var rest := n + tail;
    var s := CharsetKey + rest;
    assert s == CharsetKey + n + tail;
    assert s[..|CharsetKey|] == CharsetKey;
    assert s[|CharsetKey|..] == rest;
    assert rest[0] == n[0];
    NameRunOfName(n, tail);
  }

  lemma MatchAtKey(quote: string, n: string, tail: string)
    requires quote == "" || quote == "\""
    requires IsCharsetName(n)
    requires tail == [] || !IsCharsetNameChar(tail[0])
    ensures CharsetMatchAt(CharsetKey + quote + n + tail) == Some(n)
  {
    if quote == "" {
      assert CharsetKey + quote + n + tail == CharsetKey + n + tail;
      MatchAtKeyPlain(n, tail);
    } else {
      MatchAtKeyQuoted(n, tail);
    }
  }

  lemma HeaderNamesCharset(prefix: string, quote: string, n: string, tail: string)
    requires 'c' !in prefix
    requires quote == "" || quote == "\""
    requires IsCharsetName(n)
    requires tail == [] || !IsCharsetNameChar(tail[0])
    ensures FindCharsetName(prefix + CharsetKey + quote + n + tail) == Some(n)
  {
    var m := CharsetKey + quote + n + tail;
    var s := prefix + m;
    assert s == prefix + CharsetKey + quote + n + tail;
    assert s[..|prefix|] == prefix;
    NoMatchBefore(s, |prefix|);
    assert s[|prefix|..] == m;
    MatchAtKey(quote, n, tail);
  }

  lemma Utf8Example()
    ensures FindCharsetName("text/plain; charset=\"utf-8\"") == Some("utf-8")
  {
    Utf8Name();
    HeaderNamesCharset("text/plain; ", "\"", "utf-8", "\"");
    Utf8Header();
  }

  lemma Utf8Name()
    ensures IsCharsetName("utf-8")
  {
  }

  lemma Utf8Header()
    ensures "text/plain; " + CharsetKey + "\"" + "utf-8" + "\"" == "text/plain; charset=\"utf-8\""
  {
  }

  lemma Latin1Example()
    ensures FindCharsetName("text/html; charset=\"ISO-8859-1\"") == Some("ISO-8859-1")
  {
    Latin1Name();
    HeaderNamesCharset("text/html; ", "\"", "ISO-8859-1", "\"");
    Latin1Header();
  }

  lemma Latin1Name()
    ensures IsCharsetName("ISO-8859-1")
  {
  }

  lemma Latin1Header()
    ensures "text/html; " + CharsetKey + "\"" + "ISO-8859-1" + "\"" == "text/html; charset=\"ISO-8859-1\""
  {
  }

  lemma Cp437Example()
    ensures FindCharsetName("text/plain; charset=CP437") == Some("CP437")
  {
    Cp437Name();
    HeaderNamesCharset("text/plain; ", "", "CP437", "");
    Cp437Header();
  }

  lemma Cp437Name()
    ensures IsCharsetName("CP437")
  {
  }

  lemma Cp437Header()
    ensures "text/plain; " + CharsetKey + "" + "CP437" + "" == "text/plain; charset=CP437"
  {
  }

  lemma UnknownExample()
    ensures FindCharsetName("text/plain; charset=xxx123") == Some("xxx123")
  {
    UnknownName();
    HeaderNamesCharset("text/plain; ", "", "xxx123", "");
    UnknownHeader();
  }

  lemma UnknownName()
    ensures IsCharsetName("xxx123")
  {
  }

  lemma UnknownHeader()
    ensures "text/plain; " + CharsetKey + "" + "xxx123" + "" == "text/plain; charset=xxx123"
  {
    assert CharsetKey + "" + "xxx123" + "" == "charset=xxx123";
  }

  /** The key is matched case-sensitively: an upper-case key names no charset. */
  lemma UpperCaseKeyIgnored(env: Platform)
    ensures CharsetFromHeader(env, "text/plain; CHARSET=utf-8") == Ok(env.defaultCharset)
  {
    NoMatchBefore("text/plain; CHARSET=utf-8", 25);
    assert "text/plain; CHARSET=utf-8"[25..] == [];
  }

  lemma MissingExample()
    ensures FindCharsetName("text/plain") == None
  {
    NoMatchBefore("text/plain", 10);
    assert "text/plain"[10..] == [];
  }

  /** The header examples of MessageParserTest.testGetCharsetFromHeader. */
  lemma CharsetExamples(env: Platform, utf8: Charset, latin1: Charset, cp437: Charset)
    requires env.forName("utf-8") == Supported(utf8)
    requires env.forName("ISO-8859-1") == Supported(latin1)
    requires env.forName("CP437") == Supported(cp437)
    requires env.forName("xxx123") == Unsupported
    ensures CharsetFromHeader(env, "text/plain; charset=\"utf-8\"") == Ok(utf8)
    ensures CharsetFromHeader(env, "text/html; charset=\"ISO-8859-1\"") == Ok(latin1)
    ensures CharsetFromHeader(env, "text/plain; charset=CP437") == Ok(cp437)
    ensures CharsetFromHeader(env, "text/plain") == Ok(env.defaultCharset)
    ensures CharsetFromHeader(env, "text/plain; charset=xxx123") == Ok(env.defaultCharset)
  {
    Utf8Example();
    Latin1Example();
    Cp437Example();
    UnknownExample();
    MissingExample();
  }
}
