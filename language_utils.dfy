/** The language resolver (stored preference, then browser language, then the
    default) and the path codec that reads, strips and adds a leading language
    segment of a URL path. */
module LanguageUtils {
  import opened Wrappers
  import opened Strings
  import opened Collections
  import opened Languages

  /** The browser's `window`, reduced to the one thing the resolver reads from it,
      `navigator.language`; `None` stands for a context without a window */
  datatype Window = Window(navigatorLanguage: string)

  /** The primary language subtag of a BCP 47 tag (section 2.2.1 of RFC 5646):
      everything before the first '-' */
  function PrimarySubtag(tag: string): string {
    TakeUntil(tag, '-')
  }

  /** The browser's primary subtag when it is a registered code, else the default */
  function GetBrowserLanguage(window: Option<Window>): (r: string)
    ensures IsSupported(r)
    ensures window.None? ==> r == DefaultLanguage
    ensures window.Some? && IsSupported(PrimarySubtag(window.value.navigatorLanguage)) ==>
              r == PrimarySubtag(window.value.navigatorLanguage)
    ensures window.Some? && !IsSupported(PrimarySubtag(window.value.navigatorLanguage)) ==>
              r == DefaultLanguage
  {
    RegistryWellFormed();
    if window.None? then DefaultLanguage
    else
      var browserLang := Split(window.value.navigatorLanguage, '-')[0];
      SplitHead(window.value.navigatorLanguage, '-');
      if IsSupported(browserLang) then browserLang else DefaultLanguage
  }

  /** `localStorage`, reduced to the one key the resolver uses, 'preferredLanguage' */
  class ClientStorage {
    var preferredLanguage: Option<string>

    constructor ()
      ensures preferredLanguage == None
    {
      preferredLanguage := None;
    }
  }

  /** The stored preference, or `None` (`null`) when there is no window */
  function GetStoredLanguage(window: Option<Window>, storage: ClientStorage): (r: Option<string>)
    reads storage
    ensures window.None? ==> r == None
    ensures window.Some? ==> r == storage.preferredLanguage
  {
    if window.None? then None else storage.preferredLanguage
  }

  /** Stores any string, registered or not; without a window nothing happens */
  method SetStoredLanguage(window: Option<Window>, storage: ClientStorage, languageCode: string)
    modifies storage
    ensures window.Some? ==> storage.preferredLanguage == Some(languageCode)
    ensures window.None? ==> storage.preferredLanguage == old(storage.preferredLanguage)
    ensures GetStoredLanguage(window, storage) == if window.Some? then Some(languageCode) else None
  {
    if window.None? {
      return;
    }
    storage.preferredLanguage := Some(languageCode);
  }

  /** The stored preference when it is a non-empty registered code, otherwise the
      browser language; an unregistered stored value never comes out */
  function GetCurrentLanguage(window: Option<Window>, storage: ClientStorage): (r: string)
    reads storage
    ensures IsSupported(r)
    ensures window.None? ==> r == DefaultLanguage
    ensures window.Some? && storage.preferredLanguage.Some? && IsSupported(storage.preferredLanguage.value) ==>
              r == storage.preferredLanguage.value
    ensures !(window.Some? && storage.preferredLanguage.Some? && IsSupported(storage.preferredLanguage.value)) ==>
              r == GetBrowserLanguage(window)
  {
    var stored := GetStoredLanguage(window, storage);
    if stored.Some? && stored.value != "" && IsSupported(stored.value) then stored.value
    else GetBrowserLanguage(window)
  }

  /** An unsupported stored value is skipped in favour of a supported browser language */
  lemma UnsupportedStoredLanguageSkipped(storage: ClientStorage)
    requires storage.preferredLanguage == Some("fr")
    ensures GetCurrentLanguage(Some(Window("es-ES")), storage) == "es"
  {
    SupportedCodes("fr");
    SupportedCodes("es");
    assert TakeUntil("es-ES", '-') == "es" by {
      assert "es-ES"[1..][1..] == "-ES";
    }
  }

  predicate IsNonEmpty(s: string) {
    s != ""
  }

  /** `path.split('/').filter(Boolean)` */
  function Segments(path: string): (segs: seq<string>)
    ensures forall i :: 0 <= i < |segs| ==> segs[i] != "" && '/' !in segs[i]
  {
    Filter(Split(path, '/'), IsNonEmpty)
  }

  /** The first non-empty segment read straight off the characters: skip the
      leading slashes and take everything up to the next one ("" if none is left) */
  function LeadingSegment(path: string): string {
    TakeUntil(DropLeading(path, '/'), '/')
  }

  lemma {:induction false} SegmentsStart(path: string)
    ensures Segments(path) == [] <==> DropLeading(path, '/') == ""
    ensures Segments(path) != [] ==> Segments(path)[0] == LeadingSegment(path)
  {
    if path == [] {
    } else if path[0] == '/' {
      assert path == ['/'] + path[1..];
      SplitSeparatorFirst(path[1..], '/');
      FilterCons("", Split(path[1..], '/'), IsNonEmpty);
      SegmentsStart(path[1..]);
    } else {
      var rest := Split(path[1..], '/');
      var first := [path[0]] + rest[0];
      assert Split(path, '/') == [first] + rest[1..];
      FilterCons(first, rest[1..], IsNonEmpty);
      SplitHead(path[1..], '/');
    }
  }

  lemma NoSegmentIsSupported()
    ensures !IsSupported("")
  {
    SupportedCodes("");
  }

  /** The code of a path whose first non-empty segment is a registered code, and the
      default language for every other path (the empty and all-slash paths included) */
  function GetLanguageFromPath(path: string): (code: string)
    ensures IsSupported(code)
    ensures IsSupported(LeadingSegment(path)) ==> code == LeadingSegment(path)
    ensures !IsSupported(LeadingSegment(path)) ==> code == DefaultLanguage
  {
    SegmentsStart(path);
    NoSegmentIsSupported();
    RegistryWellFormed();
    var segs := Segments(path);
    if |segs| > 0 && IsSupported(segs[0]) then segs[0] else DefaultLanguage
  }

  /** A non-default code in front, or the explicit default prefix "/en/" */
  function HasLanguageInPath(path: string): (b: bool)
    ensures b <==> (IsSupported(LeadingSegment(path)) && LeadingSegment(path) != DefaultLanguage)
                   || StartsWith(path, "/" + DefaultLanguage + "/")
  {
    GetLanguageFromPath(path) != DefaultLanguage || StartsWith(path, "/" + DefaultLanguage + "/")
  }

  /** `'/' + parts.join('/')` splits back into `parts` when they are non-empty and slash-free */
  lemma SegmentsOfRooted(parts: seq<string>)
    requires forall i :: 0 <= i < |parts| ==> parts[i] != "" && '/' !in parts[i]
    ensures Segments("/" + Join(parts, '/')) == parts
  {
    var joined := Join(parts, '/');
    assert "/" + joined == ['/'] + joined;
    SplitSeparatorFirst(joined, '/');
    FilterCons("", Split(joined, '/'), IsNonEmpty);
    if parts == [] {
      FilterCons("", [], IsNonEmpty);
    } else {
      SplitJoin(parts, '/');
      FilterKeepsAll(parts, IsNonEmpty);
    }
  }

  /** When the leading segment is a registered code, the result is that path in
      normal form ('/' and the remaining segments joined by '/') without the code;
      any other path comes back unchanged */
  function RemoveLanguageFromPath(path: string): (r: string)
    ensures !IsSupported(LeadingSegment(path)) ==> r == path
    ensures IsSupported(LeadingSegment(path)) ==>
              |Segments(path)| > 0 && StartsWith(r, "/") && Segments(r) == Segments(path)[1..] && r == "/" + Join(Segments(r), '/')
  {
    SegmentsStart(path);
    NoSegmentIsSupported();
    var segs := Segments(path);
    if |segs| > 0 && IsSupported(segs[0]) then
      SegmentsOfRooted(segs[1..]);
      "/" + Join(segs[1..], '/')
    else path
  }

  /** The default language is never written into a path; any other code is put in
      front of the stripped path */
  function AddLanguageToPath(path: string, languageCode: string): (r: string)
    ensures languageCode == DefaultLanguage ==> r == RemoveLanguageFromPath(path)
    ensures languageCode != DefaultLanguage ==> StartsWith(r, "/" + languageCode)
    ensures languageCode != DefaultLanguage ==>
              r[|"/" + languageCode|..] == (if RemoveLanguageFromPath(path) == "/" then "" else RemoveLanguageFromPath(path))
  {
    if languageCode == DefaultLanguage then RemoveLanguageFromPath(path)
    else
      var cleanPath := RemoveLanguageFromPath(path);
      var r := "/" + languageCode + (if cleanPath == "/" then "" else cleanPath);
      assert r[..|"/" + languageCode|] == "/" + languageCode;
      r
  }

  lemma SegmentsAfterCode(code: string, rest: string)
    requires code != "" && '/' !in code
    requires rest == "" || rest[0] == '/'
    ensures Segments("/" + code + rest) == [code] + Segments(rest)
  {
    var path := "/" + code + rest;
    assert path == ['/'] + (code + rest);
    SplitSeparatorFirst(code + rest, '/');
    SplitPrefix(code, rest, '/');
    var pieces := Split(rest, '/');
    if rest == "" {
      assert pieces == [""];
    } else {
      assert rest == ['/'] + rest[1..];
      SplitSeparatorFirst(rest[1..], '/');
    }
    assert pieces[0] == "" && code + pieces[0] == code;
    assert pieces == [""] + pieces[1..];
    FilterCons("", pieces[1..], IsNonEmpty);
    FilterCons(code, pieces[1..], IsNonEmpty);
    FilterCons("", [code] + pieces[1..], IsNonEmpty);
  }

  /** Stripping keeps a rooted path rooted (or empty) */
  lemma RemoveKeepsRooted(path: string)
    requires path == "" || path[0] == '/'
    ensures var clean := RemoveLanguageFromPath(path); clean == "" || clean[0] == '/'
  {
    var clean := RemoveLanguageFromPath(path);
    if IsSupported(LeadingSegment(path)) {
      assert clean[..1] == "/";
    }
  }

  /** The path "/" has no segments */
  lemma RootHasNoSegments()
    ensures Segments("/") == []
  {
    assert "/" == "/" + Join([], '/');
    SegmentsOfRooted([]);
  }

  /** Adding a non-default code to a rooted path puts exactly that code in front of
      the segments of the stripped path */
  lemma AddLanguageSegments(path: string, code: string)
    requires IsSupported(code) && code != DefaultLanguage
    requires path == "" || path[0] == '/'
    ensures Segments(AddLanguageToPath(path, code)) == [code] + Segments(RemoveLanguageFromPath(path))
  {
    SupportedCodeShape(code);
    var clean := RemoveLanguageFromPath(path);
    var rest := if clean == "/" then "" else clean;
    assert AddLanguageToPath(path, code) == "/" + code + rest;
    RemoveKeepsRooted(path);
    SegmentsAfterCode(code, rest);
    if clean == "/" {
      RootHasNoSegments();
      FilterCons("", [], IsNonEmpty);
    }
  }

  /** Adding a non-default registered code to a rooted path and decoding gives that
      code back, and the result counts as language-prefixed */
  lemma AddLanguageRoundTrip(path: string, code: string)
    requires IsSupported(code) && code != DefaultLanguage
    requires path == "" || path[0] == '/'
    ensures GetLanguageFromPath(AddLanguageToPath(path, code)) == code
    ensures HasLanguageInPath(AddLanguageToPath(path, code))
  {
    var r := AddLanguageToPath(path, code);
    AddLanguageSegments(path, code);
    SegmentsStart(r);
    assert LeadingSegment(r) == code;
  }

  /** Stripping the code again leaves the segments of the stripped original path */
  lemma RemoveAfterAddLanguage(path: string, code: string)
    requires IsSupported(code) && code != DefaultLanguage
    requires path == "" || path[0] == '/'
    ensures Segments(RemoveLanguageFromPath(AddLanguageToPath(path, code))) == Segments(RemoveLanguageFromPath(path))
  {
    var r := AddLanguageToPath(path, code);
    AddLanguageSegments(path, code);
    SegmentsStart(r);
    assert LeadingSegment(r) == code;
    assert ([code] + Segments(RemoveLanguageFromPath(path)))[1..] == Segments(RemoveLanguageFromPath(path));
  }
}
