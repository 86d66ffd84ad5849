/**
  The reference classifier of the bundler: `getProtocol`, which reads a leading
  `scheme://` off a location with the pattern `^(\w{2,}):\/\/` (case-insensitive),
  and the two `canRead` membership tests built on it.
 */
module Protocol {
  import opened Wrappers
  import opened Strings

  const Separator: string := "://"

  /**
    The pattern matches `s` with its group covering `s[..k]`: at least two word
    characters, then `://`. The case-insensitive flag changes nothing here, since
    `\w` already holds both cases and `://` holds no letters.
   */
  predicate SchemeEndsAt(s: string, k: int) {
    && 2 <= k
    && OccursAt(s, Separator, k)
    && forall i :: 0 <= i < k ==> IsWordChar(s[i])
  }

  /** The length of the longest prefix of `s` made of word characters. */
  function WordRun(s: string): (n: nat)
    ensures n <= |s|
    ensures forall i :: 0 <= i < n ==> IsWordChar(s[i])
    ensures n == |s| || !IsWordChar(s[n])
  {
    if |s| == 0 || !IsWordChar(s[0]) then 0 else 1 + WordRun(s[1..])
  }

  /** At most one group end makes the pattern match, and it is the longest word run. */
  lemma SchemeEndIsWordRun(s: string, k: int)
    requires SchemeEndsAt(s, k)
    ensures k == WordRun(s)
  {
    assert s[k] == s[k..k + 3][0] == ':';
  }

  /**
    `getProtocol`: the lower-cased scheme when the pattern matches, `None`
    (JavaScript's `undefined`) otherwise. Never fails.
   */
  function GetProtocol(refPath: string): (r: Option<string>)
    ensures r.Some? <==> exists k :: SchemeEndsAt(refPath, k)
    ensures forall k :: SchemeEndsAt(refPath, k) ==> r == Some(Lower(refPath[..k]))
    ensures r.Some? ==> |r.value| >= 2
    ensures r.Some? ==> forall i :: 0 <= i < |r.value| ==> IsLowerWordChar(r.value[i])
  {
    var n := WordRun(refPath);
    if n >= 2 && OccursAt(refPath, Separator, n) then
      assert SchemeEndsAt(refPath, n);
      forall k | SchemeEndsAt(refPath, k) ensures k == n {
        SchemeEndIsWordRun(refPath, k);
      }
      forall i | 0 <= i < n ensures IsLowerWordChar(Lower(refPath[..n])[i]) {
        LowerCharWord(refPath[i]);
      }
      Some(Lower(refPath[..n]))
    else
      assert forall k :: !SchemeEndsAt(refPath, k) by {
        forall k | SchemeEndsAt(refPath, k) ensures false {
          SchemeEndIsWordRun(refPath, k);
        }
      }
      None
  }

  /** The location starts with `p`, ignoring ASCII case. */
  predicate StartsWithIgnoringCase(s: string, p: string) {
    |p| <= |s| && Lower(s[..|p|]) == Lower(p)
  }

  /** `canRead` of the file resolver: no scheme at all, or the scheme `file`. */
  predicate FileCanRead(url: string) {
    var protocol := GetProtocol(url);
    protocol == None || protocol == Some("file")
  }

  /** `canRead` of the http resolver: the scheme `http` or `https`. */
  predicate HttpCanRead(url: string) {
    var protocol := GetProtocol(url);
    protocol == Some("http") || protocol == Some("https")
  }

  /** No location is claimed by both resolvers. */
  lemma CanReadDisjoint(url: string)
    ensures !(FileCanRead(url) && HttpCanRead(url))
  {
  }

  /** A location whose scheme is anything but `file`, `http` or `https` is claimed by neither resolver. */
  lemma OtherSchemeUnclaimed(url: string, k: int)
    requires SchemeEndsAt(url, k)
    requires Lower(url[..k]) != "file" && Lower(url[..k]) != "http" && Lower(url[..k]) != "https"
    ensures !FileCanRead(url) && !HttpCanRead(url)
  {
  }

  /** `GetProtocol(url)` is the scheme `scheme` exactly when `url` starts with `scheme://`, ignoring case. */
  lemma {:induction false} ProtocolIsPrefix(url: string, scheme: string)
    requires |scheme| >= 2
    requires forall i :: 0 <= i < |scheme| ==> IsLowerWordChar(scheme[i])
    ensures GetProtocol(url) == Some(scheme) <==> StartsWithIgnoringCase(url, scheme + Separator)
  {
    var n := |scheme|;
    var p := scheme + Separator;
    assert Lower(p) == p by {
      forall i | 0 <= i < |p| ensures LowerChar(p[i]) == p[i] {
        if i < n {
          assert p[i] == scheme[i];
        }
      }
    }
    if GetProtocol(url) == Some(scheme) {
      var k :| SchemeEndsAt(url, k);
      assert Lower(url[..k]) == scheme;
      assert k == n;
      assert Lower(url[..n + 3]) == p by {
        forall i | 0 <= i < n + 3 ensures Lower(url[..n + 3])[i] == p[i] {
          if i < n {
            assert Lower(url[..n])[i] == scheme[i];
          } else {
            assert url[i] == url[n..n + 3][i - n] == Separator[i - n];
          }
        }
      }
    }
    if StartsWithIgnoringCase(url, p) {
      var low := Lower(url[..n + 3]);
      assert low == p;
      forall i | 0 <= i < n ensures IsWordChar(url[i]) {
        assert low[i] == LowerChar(url[i]) == scheme[i];
        LowerCharWord(url[i]);
      }
      assert url[n..n + 3] == Separator by {
        forall i | n <= i < n + 3 ensures url[i] == p[i] {
          assert low[i] == LowerChar(url[i]) == p[i];
        }
      }
      assert SchemeEndsAt(url, n);
      assert Lower(url[..n]) == scheme by {
        forall i | 0 <= i < n ensures Lower(url[..n])[i] == scheme[i] {
          assert low[i] == LowerChar(url[i]);
        }
      }
    }
  }

  /** The http resolver claims exactly the locations starting with `http://` or `https://`, in any case. */
  lemma HttpCanReadIffPrefix(url: string)
    ensures HttpCanRead(url) <==>
      StartsWithIgnoringCase(url, "http://") || StartsWithIgnoringCase(url, "https://")
  {
    ProtocolIsPrefix(url, "http");
    ProtocolIsPrefix(url, "https");
  }

  /** The file resolver claims exactly the locations with no scheme or starting with `file://`, in any case. */
  lemma FileCanReadIffPrefix(url: string)
    ensures FileCanRead(url) <==>
      (forall k :: !SchemeEndsAt(url, k)) || StartsWithIgnoringCase(url, "file://")
  {
    ProtocolIsPrefix(url, "file");
  }

  /** `HTTPS://a` is classified as `https`: the scheme is lower-cased. */
  lemma UpperCaseSchemeExample()
    ensures GetProtocol("HTTPS://a") == Some("https")
  {
    var url := "HTTPS://a";
    assert SchemeEndsAt(url, 5);
    assert url[..5] == "HTTPS";
    assert Lower("HTTPS") == "https" by {
      assert LowerChar('H') == 'h' && LowerChar('T') == 't' && LowerChar('P') == 'p' && LowerChar('S') == 's';
    }
  }

  /** A one-letter scheme, a single slash, or a missing slash gives no scheme. */
  lemma NoSchemeExamples()
    ensures GetProtocol("c://x") == None
    ensures GetProtocol("C:/x") == None
    ensures GetProtocol("ftp:/x") == None
  {
    assert WordRun("c://x") == 1 by {
      assert WordRun("c://x"[1..]) == 0;
    }
    assert WordRun("C:/x") == 1 by {
      assert WordRun("C:/x"[1..]) == 0;
    }
    assert !OccursAt("ftp:/x", Separator, 3) by {
      assert "ftp:/x"[3..6] != Separator by {
        assert "ftp:/x"[3..6][2] == 'x';
      }
    }
    assert WordRun("ftp:/x") == 3 by {
      assert WordRun("ftp:/x"[3..]) == 0;
      assert "ftp:/x"[1..][1..][1..] == "ftp:/x"[3..];
    }
  }

  /** `ftp://…` is claimed by neither resolver. */
  lemma FtpUnclaimed(rest: string)
    ensures !FileCanRead("ftp://" + rest) && !HttpCanRead("ftp://" + rest)
  {
    var url := "ftp://" + rest;
    assert url[..6] == "ftp://";
    assert SchemeEndsAt(url, 3);
    assert url[..3] == "ftp";
  }
}
