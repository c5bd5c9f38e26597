/** `UrlEncode` of pkg/cibot/utils.go: escapes the slashes of a label name
    before it is put into a request path. */
module Utils {

  /** What one character of the input becomes. */
  function EncodeChar(c: char): string
  {
    if c == '/' then "%2F" else [c]
  }

  /** `strings.Replace(str, "/", "%2F", -1)`: every slash becomes `%2F`. */
  function UrlEncode(str: string): string
  {
    if |str| == 0 then [] else EncodeChar(str[0]) + UrlEncode(str[1..])
  }

  /** The number of slashes in `s`. */
  function Slashes(s: string): nat
  {
    if |s| == 0 then 0 else (if s[0] == '/' then 1 else 0) + Slashes(s[1..])
  }

  /** The reverse rewrite: every `%2F` becomes a slash. */
  function UrlDecode(s: string): string
  {
    if |s| == 0 then []
    else if "%2F" <= s then "/" + UrlDecode(s[3..])
    else [s[0]] + UrlDecode(s[1..])
  }

  /** The encoding has no slash left. */
  lemma {:induction false} EncodedHasNoSlash(s: string)
    ensures '/' !in UrlEncode(s)
  {
    if |s| > 0 {
      EncodedHasNoSlash(s[1..]);
    }
  }

  /** A string without slashes is returned unchanged. */
  lemma {:induction false} EncodeWithoutSlash(s: string)
    requires '/' !in s
    ensures UrlEncode(s) == s
  {
    if |s| > 0 {
      EncodeWithoutSlash(s[1..]);
      assert s == [s[0]] + s[1..];
    }
  }

  /** Each slash adds two characters. */
  lemma {:induction false} EncodedLength(s: string)
    ensures |UrlEncode(s)| == |s| + 2 * Slashes(s)
  {
    if |s| > 0 {
      EncodedLength(s[1..]);
    }
  }

  /** Encoding works character by character and keeps their order: the code
      of a concatenation is the concatenation of the codes. */
  lemma {:induction false} EncodeConcat(a: string, b: string)
    ensures UrlEncode(a + b) == UrlEncode(a) + UrlEncode(b)
  {
    if |a| == 0 {
      assert a + b == b;
    } else {
      EncodeConcat(a[1..], b);
      assert (a + b)[1..] == a[1..] + b;
    }
  }

  /** For input without `%` the decoding undoes the encoding. */
  lemma {:induction false} DecodeEncode(s: string)
    requires '%' !in s
    ensures UrlDecode(UrlEncode(s)) == s
  {
    if |s| > 0 {
      DecodeEncode(s[1..]);
      var rest := UrlEncode(s[1..]);
      if s[0] == '/' {
        assert UrlEncode(s) == "%2F" + rest;
        assert ("%2F" + rest)[3..] == rest;
      } else {
        assert UrlEncode(s) == [s[0]] + rest;
        assert ([s[0]] + rest)[0] == s[0] != '%';
        assert !("%2F" <= [s[0]] + rest);
        assert ([s[0]] + rest)[1..] == rest;
      }
      assert s == [s[0]] + s[1..];
    }
  }

  /** Two different names share one encoding, so the encoding cannot be
      undone in general. */
  lemma EncodeNotInjective()
    ensures UrlEncode("a/b") == UrlEncode("a%2Fb") == "a%2Fb"
  {
    assert UrlEncode("b") == "b";
    assert UrlEncode("/b") == "%2F" + UrlEncode("b");
    assert UrlEncode("Fb") == "Fb";
    assert UrlEncode("2Fb") == "2Fb";
    assert UrlEncode("%2Fb") == "%2Fb";
  }
}
