/** Consequences of the path codec on paths in normal form ('/' followed by
    non-empty, slash-free segments joined by '/'), and worked examples. */
module LanguagePathLaws {
  import opened Strings
  import opened Languages
  import opened LanguageUtils

  /** A path in normal form, '/' followed by non-empty segments joined by '/',
      decodes to its first segment when that is a registered code */
  lemma DecodeNormalPath(parts: seq<string>)
    requires |parts| > 0
    requires forall i :: 0 <= i < |parts| ==> parts[i] != "" && '/' !in parts[i]
    ensures LeadingSegment("/" + Join(parts, '/')) == parts[0]
    ensures GetLanguageFromPath("/" + Join(parts, '/')) == if IsSupported(parts[0]) then parts[0] else DefaultLanguage
  {
    SegmentsOfRooted(parts);
    SegmentsStart("/" + Join(parts, '/'));
  }

  /** Stripping a normal-form path whose first segment is a registered code leaves
      the normal form of the remaining segments */
  lemma StripNormalPath(parts: seq<string>)
    requires |parts| > 0 && IsSupported(parts[0])
    requires forall i :: 0 <= i < |parts| ==> parts[i] != "" && '/' !in parts[i]
    ensures RemoveLanguageFromPath("/" + Join(parts, '/')) == "/" + Join(parts[1..], '/')
  {
    var path := "/" + Join(parts, '/');
    DecodeNormalPath(parts);
    SegmentsOfRooted(parts);
    var r := RemoveLanguageFromPath(path);
    assert Segments(r) == parts[1..];
  }

  /** Encoding in the default language strips the default code from a normal-form
      path that carries it */
  lemma DefaultEncodingStripsDefault(tail: seq<string>)
    requires |tail| > 0
    requires forall i :: 0 <= i < |tail| ==> tail[i] != "" && '/' !in tail[i]
    ensures AddLanguageToPath("/" + Join([DefaultLanguage] + tail, '/'), DefaultLanguage) == "/" + Join(tail, '/')
  {
    RegistryWellFormed();
    SupportedCodeShape(DefaultLanguage);
    var parts := [DefaultLanguage] + tail;
    assert parts[0] == DefaultLanguage && parts[1..] == tail;
    assert forall i :: 0 <= i < |parts| ==> parts[i] != "" && '/' !in parts[i] by {
      forall i | 0 <= i < |parts| ensures parts[i] != "" && '/' !in parts[i] {
        if i > 0 { assert parts[i] == tail[i - 1]; }
      }
    }
    StripNormalPath(parts);
  }

  /** A registered code is a valid first segment */
  lemma CodeBeforeSegments(code: string, rest: seq<string>)
    requires IsSupported(code)
    requires forall i :: 0 <= i < |rest| ==> rest[i] != "" && '/' !in rest[i]
    ensures forall i :: 0 <= i < |[code] + rest| ==> ([code] + rest)[i] != "" && '/' !in ([code] + rest)[i]
  {
    SupportedCodeShape(code);
  }

  lemma PairThenRest<T>(a: T, b: T, rest: seq<T>)
    ensures [a, b] + rest == [a] + ([b] + rest)
  {
  }

  /** ... but only that code: a path that starts with the default code and then
      another registered code comes out with that second code in front */
  lemma DefaultEncodingOfDoublePrefixedPath(code: string, rest: seq<string>)
    requires IsSupported(code)
    requires forall i :: 0 <= i < |rest| ==> rest[i] != "" && '/' !in rest[i]
    ensures AddLanguageToPath("/" + Join([DefaultLanguage, code] + rest, '/'), DefaultLanguage)
            == "/" + Join([code] + rest, '/')
  {
    CodeBeforeSegments(code, rest);
    PairThenRest(DefaultLanguage, code, rest);
    DefaultEncodingStripsDefault([code] + rest);
  }

  /** A normal-form path whose first segment is a registered code decodes to that code */
  lemma DecodeLeadingCode(code: string, rest: seq<string>)
    requires IsSupported(code)
    requires forall i :: 0 <= i < |rest| ==> rest[i] != "" && '/' !in rest[i]
    ensures GetLanguageFromPath("/" + Join([code] + rest, '/')) == code
  {
    CodeBeforeSegments(code, rest);
    assert ([code] + rest)[0] == code;
    DecodeNormalPath([code] + rest);
  }

  /** ... and stripping it leaves the normal form of the remaining segments */
  lemma StripLeadingCode(code: string, rest: seq<string>)
    requires IsSupported(code)
    requires forall i :: 0 <= i < |rest| ==> rest[i] != "" && '/' !in rest[i]
    ensures RemoveLanguageFromPath("/" + Join([code] + rest, '/')) == "/" + Join(rest, '/')
  {
    CodeBeforeSegments(code, rest);
    assert ([code] + rest)[0] == code && ([code] + rest)[1..] == rest;
    StripNormalPath([code] + rest);
  }

  /** "/en/es/x" re-encoded in the default language becomes "/es/x" */
  lemma DefaultEncodingExample()
    ensures AddLanguageToPath("/en/es/x", DefaultLanguage) == "/es/x"
  {
    SupportedCodes("es");
    assert [DefaultLanguage, "es"] + ["x"] == ["en", "es", "x"];
    assert "/en/es/x" == "/" + Join(["en", "es", "x"], '/');
    assert "/es/x" == "/" + Join(["es", "x"], '/');
    assert ["es"] + ["x"] == ["es", "x"];
    DefaultEncodingOfDoublePrefixedPath("es", ["x"]);
  }

  /** The re-encoded "/es/x" carries Spanish, not the default language ... */
  lemma DefaultEncodingExampleDecodes(q: string)
    requires q == "/es/x"
    ensures GetLanguageFromPath(q) == "es"
  {
    SupportedCodes("es");
    assert q == "/" + Join(["es", "x"], '/');
    DecodeNormalPath(["es", "x"]);
  }

  /** ... and stripping it gives "/x", whereas stripping "/en/es/x" gives "/es/x" */
  lemma DefaultEncodingExampleStrips(q: string)
    requires q == "/es/x"
    ensures RemoveLanguageFromPath(q) == "/x"
  {
    SupportedCodes("es");
    assert q == "/" + Join(["es", "x"], '/');
    StripNormalPath(["es", "x"]);
  }

  lemma DecodeExampleSpanish(path: string)
    requires path == "/es/blog/post-1"
    ensures GetLanguageFromPath(path) == "es"
  {
    SupportedCodes("es");
    assert path == "/" + Join(["es", "blog", "post-1"], '/');
    DecodeNormalPath(["es", "blog", "post-1"]);
  }

  lemma DecodeExampleUnprefixed(path: string)
    requires path == "/blog/post-1"
    ensures GetLanguageFromPath(path) == DefaultLanguage
  {
    SupportedCodes("blog");
    assert path == "/" + Join(["blog", "post-1"], '/');
    DecodeNormalPath(["blog", "post-1"]);
  }

  /** '/' + a slash-free segment + a rooted rest starts with "/en/" exactly when
      the segment is "en" and the rest is not empty */
  lemma SegmentPrefixedByDefault(w: string, p0: string, tail: string)
    requires p0 != "" && '/' !in p0
    requires tail == "" || tail[0] == '/'
    requires w == ['/'] + (p0 + tail)
    ensures StartsWith(w, "/en/") <==> p0 == "en" && tail != ""
  {
    assert forall k :: 0 <= k < |p0| ==> w[1 + k] == p0[k];
    assert forall k :: 0 <= k < |tail| ==> w[1 + |p0| + k] == tail[k];
    if StartsWith(w, "/en/") {
      assert w[1] == 'e' && w[2] == 'n' && w[3] == '/';
      assert |p0| == 2;
      assert p0 == [w[1], w[2]];
      assert |w| == 3 + |tail|;
    }
    if p0 == "en" && tail != "" {
      assert w[..4] == "/en/";
    }
  }

  /** A normal-form path starts with "/en/" exactly when its first segment is the
      default code and another segment follows */
  lemma PrefixedByDefault(parts: seq<string>)
    requires |parts| > 0
    requires forall i :: 0 <= i < |parts| ==> parts[i] != "" && '/' !in parts[i]
    ensures StartsWith("/" + Join(parts, '/'), "/" + DefaultLanguage + "/") <==>
              parts[0] == DefaultLanguage && |parts| > 1
  {
    var w := "/" + Join(parts, '/');
    assert "/" + DefaultLanguage + "/" == "/en/";
    var tail := if |parts| > 1 then ['/'] + Join(parts[1..], '/') else "";
    assert Join(parts, '/') == parts[0] + tail;
    SegmentPrefixedByDefault(w, parts[0], tail);
  }

  /** A normal-form path reports a language exactly when it starts with a
      non-default code, or with the default code followed by another segment */
  lemma HasLanguageOfNormalPath(parts: seq<string>)
    requires |parts| > 0
    requires forall i :: 0 <= i < |parts| ==> parts[i] != "" && '/' !in parts[i]
    ensures HasLanguageInPath("/" + Join(parts, '/')) <==>
              (IsSupported(parts[0]) && parts[0] != DefaultLanguage) || (parts[0] == DefaultLanguage && |parts| > 1)
  {
    DecodeNormalPath(parts);
    PrefixedByDefault(parts);
  }

  /** "/en/x" counts as language-prefixed ... */
  lemma HasLanguageExampleSlashed(path: string)
    requires path == "/en/x"
    ensures HasLanguageInPath(path)
  {
    assert path == "/" + Join([DefaultLanguage, "x"], '/');
    HasLanguageOfNormalPath([DefaultLanguage, "x"]);
  }

  /** ... and so does "/en/" itself ... */
  lemma HasLanguageExampleRootPrefix(path: string)
    requires path == "/en/"
    ensures HasLanguageInPath(path)
  {
    assert StartsWith(path, "/" + DefaultLanguage + "/");
  }

  /** ... "/en" does not ... */
  lemma HasLanguageExampleBare(path: string)
    requires path == "/en"
    ensures !HasLanguageInPath(path)
  {
    assert path == "/" + Join([DefaultLanguage], '/');
    HasLanguageOfNormalPath([DefaultLanguage]);
  }

  /** ... and neither does "/blog/post-1" */
  lemma HasLanguageExampleUnprefixed(path: string)
    requires path == "/blog/post-1"
    ensures !HasLanguageInPath(path)
  {
    SupportedCodes("blog");
    assert path == "/" + Join(["blog", "post-1"], '/');
    HasLanguageOfNormalPath(["blog", "post-1"]);
  }
}
