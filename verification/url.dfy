/**
 * The request URL builder of GoogleBackendService (`getDataUrl_`). A URL has
 * the shape `{baseUrl}/{prefix}/{segment}/{version}/{fontKit}.{suffix}`, where
 * the segment is the font's family path, or, when that is empty, its family
 * name with the spaces removed and lower-cased.
 */
module DataUrl {
  import opened Results
  import opened Strings

  /** The parts of a font record that `getDataUrl_` reads. */
  datatype FontInfo = FontInfo(familyPath: string, familyName: string, version: string, fontKit: string)

  /** The six components a data URL is assembled from. */
  datatype UrlParts = UrlParts(baseUrl: string, prefix: string, segment: string, version: string, fontKit: string, suffix: string)

  /** How many spaces `s` holds. */
  function SpaceCount(s: string): nat
  {
    if |s| == 0 then 0
    else if s[0] == ' ' then SpaceCount(s[1..]) + 1
    else SpaceCount(s[1..])
  }

  /** `replace(/ /g, '')`: every space dropped, the other characters kept in order. */
  function RemoveSpaces(s: string): (r: string)
    ensures ' ' !in r
    ensures forall c :: c != ' ' ==> (c in r <==> c in s)
    ensures |r| == |s| - SpaceCount(s)
  {
    if |s| == 0 then []
    else if s[0] == ' ' then RemoveSpaces(s[1..])
    else [s[0]] + RemoveSpaces(s[1..])
  }

  predicate IsUpperAscii(c: char)
  {
    'A' <= c <= 'Z'
  }

  /** The lower-case form of one character; only A to Z change. */
  function LowerAscii(c: char): (r: char)
    ensures !IsUpperAscii(r)
    ensures r == c <==> !IsUpperAscii(c)
    ensures IsUpperAscii(c) ==> 'a' <= r <= 'z' && r as int - 'a' as int == c as int - 'A' as int
  {
    if IsUpperAscii(c) then (c as int + 32) as char else c
  }

  /** `toLowerCase`, restricted to ASCII: every A to Z becomes a to z, nothing else changes. */
  function ToLowerAscii(s: string): (r: string)
    ensures |r| == |s|
    ensures forall i :: 0 <= i < |s| ==> r[i] == LowerAscii(s[i])
    ensures forall i :: 0 <= i < |r| ==> !IsUpperAscii(r[i])
  {
    if |s| == 0 then [] else [LowerAscii(s[0])] + ToLowerAscii(s[1..])
  }

  /** The directory segment: the family path when it is set, otherwise the normalised family name. */
  function PathSegment(info: FontInfo): (r: string)
    ensures info.familyPath != "" ==> r == info.familyPath
    ensures info.familyPath == "" ==> ' ' !in r && forall i :: 0 <= i < |r| ==> !IsUpperAscii(r[i])
    ensures info.familyPath == "" ==> |r| == |info.familyName| - SpaceCount(info.familyName)
  {
    if info.familyPath != "" then info.familyPath
    else ToLowerAscii(RemoveSpaces(info.familyName))
  }

  /** `getDataUrl_`: the URL for one action on one font. */
  function GetDataUrl(baseUrl: string, info: FontInfo, prefix: string, suffix: string): (r: string)
    ensures |r| == |baseUrl| + |prefix| + |PathSegment(info)| + |info.version| + |info.fontKit| + |suffix| + 5
    ensures baseUrl + "/" + prefix + "/" <= r
    ensures EndsWith(r, info.fontKit + "." + suffix)
  {
    baseUrl + "/" + prefix + "/" + PathSegment(info) + "/" + info.version + "/" + info.fontKit + "." + suffix
  }

  /** Reads a data URL back into its parts, splitting at the last '.' and then at the last four '/'. */
  function ParseDataUrl(url: string): (r: Option<UrlParts>)
    ensures r.Some? ==> '.' !in r.value.suffix && '/' !in r.value.fontKit
    ensures r.Some? ==> '/' !in r.value.version && '/' !in r.value.segment && '/' !in r.value.prefix
  {
    var (rest, suffix) :- SplitLast(url, '.');
    var (rest, fontKit) :- SplitLast(rest, '/');
    var (rest, version) :- SplitLast(rest, '/');
    var (rest, segment) :- SplitLast(rest, '/');
    var (baseUrl, prefix) :- SplitLast(rest, '/');
    Some(UrlParts(baseUrl, prefix, segment, version, fontKit, suffix))
  }

  /** The components can be read back unambiguously when none of them holds its separator. */
  predicate Separable(prefix: string, segment: string, version: string, fontKit: string, suffix: string)
  {
    '/' !in prefix && '/' !in segment && '/' !in version && '/' !in fontKit && '.' !in suffix
  }

  /** Building a URL and parsing it gives back the components it was built from. */
  lemma DataUrlRoundTrip(baseUrl: string, info: FontInfo, prefix: string, suffix: string)
    requires Separable(prefix, PathSegment(info), info.version, info.fontKit, suffix)
    ensures ParseDataUrl(GetDataUrl(baseUrl, info, prefix, suffix))
      == Some(UrlParts(baseUrl, prefix, PathSegment(info), info.version, info.fontKit, suffix))
  {
    var segment := PathSegment(info);
    var a := baseUrl + "/" + prefix;
    var b := a + "/" + segment;
    var c := b + "/" + info.version;
    var d := c + "/" + info.fontKit;
    assert GetDataUrl(baseUrl, info, prefix, suffix) == d + "." + suffix;
    SplitLastJoin(d, '.', suffix);
    SplitLastJoin(c, '/', info.fontKit);
    SplitLastJoin(b, '/', info.version);
    SplitLastJoin(a, '/', segment);
    SplitLastJoin(baseUrl, '/', prefix);
  }

  /** A family name without '/' always yields a segment that can be read back. */
  lemma NameSegmentSeparable(info: FontInfo)
    requires info.familyPath == ""
    requires '/' !in info.familyName
    ensures '/' !in PathSegment(info)
  {
  }

  /** Two fonts whose separable components differ get different URLs. */
  lemma DataUrlInjective(baseUrl: string, info1: FontInfo, info2: FontInfo, prefix: string, suffix: string)
    requires Separable(prefix, PathSegment(info1), info1.version, info1.fontKit, suffix)
    requires Separable(prefix, PathSegment(info2), info2.version, info2.fontKit, suffix)
    requires GetDataUrl(baseUrl, info1, prefix, suffix) == GetDataUrl(baseUrl, info2, prefix, suffix)
    ensures PathSegment(info1) == PathSegment(info2)
    ensures info1.version == info2.version && info1.fontKit == info2.fontKit
  {
    DataUrlRoundTrip(baseUrl, info1, prefix, suffix);
    DataUrlRoundTrip(baseUrl, info2, prefix, suffix);
  }

  /** Removing spaces splits over concatenation. */
  lemma {:induction false} RemoveSpacesAppend(a: string, b: string)
    ensures RemoveSpaces(a + b) == RemoveSpaces(a) + RemoveSpaces(b)
    decreases |a|
  {
    if |a| == 0 {
      assert a + b == b;
    } else {
      assert (a + b)[0] == a[0] && (a + b)[1..] == a[1..] + b;
      RemoveSpacesAppend(a[1..], b);
    }
  }

  /** Removing spaces leaves a string unchanged exactly when it holds none. */
  lemma {:induction false} RemoveSpacesIdentity(s: string)
    ensures RemoveSpaces(s) == s <==> ' ' !in s
    decreases |s|
  {
    if |s| > 0 {
      RemoveSpacesIdentity(s[1..]);
      if s[0] != ' ' {
        assert s == [s[0]] + s[1..];
      }
    }
  }

  /** Lower-casing twice is lower-casing once. */
  lemma ToLowerIdempotent(s: string)
    ensures ToLowerAscii(ToLowerAscii(s)) == ToLowerAscii(s)
  {
  }

  /** Removing spaces and lower-casing can be done in either order. */
  lemma {:induction false} RemoveSpacesLowerCommute(s: string)
    ensures ToLowerAscii(RemoveSpaces(s)) == RemoveSpaces(ToLowerAscii(s))
    decreases |s|
  {
    if |s| > 0 {
      RemoveSpacesLowerCommute(s[1..]);
      var l := ToLowerAscii(s);
      assert l[0] == LowerAscii(s[0]) && l[1..] == ToLowerAscii(s[1..]);
      if s[0] != ' ' {
        assert ToLowerAscii([s[0]] + RemoveSpaces(s[1..]))[1..] == ToLowerAscii(RemoveSpaces(s[1..]));
      }
    }
  }

  /** The fallback segment is already normalised: normalising it again changes nothing. */
  lemma NormalisedNameIsFixed(name: string)
    ensures var t := ToLowerAscii(RemoveSpaces(name));
      ToLowerAscii(RemoveSpaces(t)) == t
  {
    var t := ToLowerAscii(RemoveSpaces(name));
    RemoveSpacesLowerCommute(RemoveSpaces(name));
    RemoveSpacesIdentity(RemoveSpaces(name));
    RemoveSpacesIdentity(t);
    ToLowerIdempotent(RemoveSpaces(name));
  }

  /** The family name "Noto Sans JP" as its words and spaces, and the same words joined. */
  lemma NotoSansJpPieces()
    ensures "Noto Sans JP" == "Noto" + (" " + ("Sans" + (" " + "JP")))
    ensures "NotoSansJP" == "Noto" + "SansJP"
  {
  }

  /** Removing the spaces of "Noto Sans JP" word by word. */
  lemma NotoSansJpWithoutSpaces()
    ensures RemoveSpaces("Noto Sans JP") == "NotoSansJP"
  {
    NotoSansJpPieces();
    RemoveSpacesAppend("Noto", " " + ("Sans" + (" " + "JP")));
    RemoveSpacesAppend(" ", "Sans" + (" " + "JP"));
    SansJpWithoutSpaces();
    assert RemoveSpaces(" ") == "";
    RemoveSpacesIdentity("Noto");
  }

  /** Removing the spaces of the tail "Sans JP". */
  lemma SansJpWithoutSpaces()
    ensures RemoveSpaces("Sans" + (" " + "JP")) == "SansJP"
  {
    RemoveSpacesAppend("Sans", " " + "JP");
    RemoveSpacesAppend(" ", "JP");
    assert RemoveSpaces(" ") == "";
    RemoveSpacesIdentity("Sans");
    RemoveSpacesIdentity("JP");
  }

  /** Lower-casing "NotoSansJP" word by word. */
  lemma NotoSansJpLowered()
    ensures ToLowerAscii("NotoSansJP") == "notosansjp"
  {
    NotoSansJpWords();
    ToLowerAppend("Noto", "Sans" + "JP");
    ToLowerAppend("Sans", "JP");
    WordsLowered();
  }

  /** "NotoSansJP" and "notosansjp" as their three words. */
  lemma NotoSansJpWords()
    ensures "NotoSansJP" == "Noto" + ("Sans" + "JP")
    ensures "notosansjp" == "noto" + ("sans" + "jp")
  {
  }

  /** The three words, lower-cased. */
  lemma WordsLowered()
    ensures ToLowerAscii("Noto") == "noto"
    ensures ToLowerAscii("Sans") == "sans"
    ensures ToLowerAscii("JP") == "jp"
  {
  }

  /** Lower-casing works character by character, so it splits over concatenation. */
  lemma ToLowerAppend(a: string, b: string)
    ensures ToLowerAscii(a + b) == ToLowerAscii(a) + ToLowerAscii(b)
  {
    assert forall i :: 0 <= i < |a + b| ==> (a + b)[i] == if i < |a| then a[i] else b[i - |a|];
  }

  /** With no family path, the family name "Noto Sans JP" gives the segment "notosansjp". */
  lemma FamilyNameFallbackExample()
    ensures PathSegment(FontInfo("", "Noto Sans JP", "100", "n1")) == "notosansjp"
  {
    NotoSansJpWithoutSpaces();
    NotoSansJpLowered();
  }
}
