/**
 * GoogleBackendService's two request kinds: a glyph-bundle request and a
 * base-font ("framework") request, each a data URL with its own action
 * prefix and file suffix.
 */
module GoogleBackendService {
  import opened Results
  import opened Strings
  import opened DataUrl

  const GlyphsRequestPrefix: string := "g"
  const GlyphsRequestSuffix: string := "glyphs"
  const FrameworkRequestPrefix: string := "t"
  const FrameworkRequestSuffix: string := "framework"

  /** The URL `requestCodepoints` posts the compressed code-point list to. */
  function GlyphsUrl(baseUrl: string, info: FontInfo): (r: string)
    ensures baseUrl + "/g/" <= r
    ensures EndsWith(r, info.fontKit + ".glyphs")
  {
    GetDataUrl(baseUrl, info, GlyphsRequestPrefix, GlyphsRequestSuffix)
  }

  /** The URL `requestFontBase` fetches the base font from. */
  function FrameworkUrl(baseUrl: string, info: FontInfo): (r: string)
    ensures baseUrl + "/t/" <= r
    ensures EndsWith(r, info.fontKit + ".framework")
  {
    GetDataUrl(baseUrl, info, FrameworkRequestPrefix, FrameworkRequestSuffix)
  }

  /** The two kinds can be told apart: no glyph URL equals a framework URL, whatever the fonts. */
  lemma GlyphsAndFrameworkUrlsDiffer(baseUrl: string, info1: FontInfo, info2: FontInfo)
    ensures GlyphsUrl(baseUrl, info1) != FrameworkUrl(baseUrl, info2)
  {
    var g, f := GlyphsUrl(baseUrl, info1), FrameworkUrl(baseUrl, info2);
    var i := |baseUrl| + 1;
    assert (baseUrl + "/g/")[i] == 'g' && (baseUrl + "/t/")[i] == 't';
    assert g[i] == 'g' && f[i] == 't';
  }

  /** With separable components, a glyph URL reads back as the glyph action on that font. */
  lemma GlyphsUrlRoundTrip(baseUrl: string, info: FontInfo)
    requires Separable(GlyphsRequestPrefix, PathSegment(info), info.version, info.fontKit, GlyphsRequestSuffix)
    ensures ParseDataUrl(GlyphsUrl(baseUrl, info))
      == Some(UrlParts(baseUrl, "g", PathSegment(info), info.version, info.fontKit, "glyphs"))
  {
    DataUrlRoundTrip(baseUrl, info, GlyphsRequestPrefix, GlyphsRequestSuffix);
  }

  /** With separable components, a framework URL reads back as the framework action on that font. */
  lemma FrameworkUrlRoundTrip(baseUrl: string, info: FontInfo)
    requires Separable(FrameworkRequestPrefix, PathSegment(info), info.version, info.fontKit, FrameworkRequestSuffix)
    ensures ParseDataUrl(FrameworkUrl(baseUrl, info))
      == Some(UrlParts(baseUrl, "t", PathSegment(info), info.version, info.fontKit, "framework"))
  {
    DataUrlRoundTrip(baseUrl, info, FrameworkRequestPrefix, FrameworkRequestSuffix);
  }

  /** The glyph URL of a font with family path "notosansjapanese", version "100" and font kit "n1". */
  lemma GlyphsUrlExample()
    ensures GlyphsUrl("http://x", FontInfo("notosansjapanese", "", "100", "n1"))
      == "http://x/g/notosansjapanese/100/n1.glyphs"
  {
    var info := FontInfo("notosansjapanese", "", "100", "n1");
    assert PathSegment(info) == "notosansjapanese";
    assert GlyphsUrl("http://x", info)
      == "http://x" + "/" + "g" + "/" + "notosansjapanese" + "/" + "100" + "/" + "n1" + "." + "glyphs";
    ExampleUrlText();
  }

  /** The pieces of the example glyph URL, joined. */
  lemma ExampleUrlText()
    ensures "http://x" + "/" + "g" + "/" + "notosansjapanese" + "/" + "100" + "/" + "n1" + "." + "glyphs"
      == "http://x/g/notosansjapanese/100/n1.glyphs"
  {
  }
}
