/**
 * The concrete classifications and rewrites that the repository's test file
 * checks, each proved of the model, plus a few edge cases the patterns
 * imply. One of them, `example.org/script.js`, does not give what the test
 * expects; the model gives what the code computes.
 *
 * References are written as a prefix joined to a body (`"//" + "google.com"`
 * is the string `//google.com`), which names the part each pattern matches.
 */
module ParserExamples {
  import opened JsString
  import opened UrlTypes
  import opened Parser

  // The bodies used below, each split into host, top-level domain and path.

  lemma BodyGoogle()
    ensures BodyLang("google.com")
  {
    var s := "google.com";
    assert s[0..6] == "google" && s[7..10] == "com";
    assert BodySplit(s, 0, 6, 10);
  }

  lemma BodyExampleScript()
    ensures BodyLang("example.org/script.js")
  {
    var s := "example.org/script.js";
    assert s[0..7] == "example" && s[8..11] == "org" && s[12..] == "script.js";
    assert BodySplit(s, 0, 7, 11);
  }

  // tests/parser.js, "Can detect different URL types".

  lemma DetectFullUrl()
    ensures DetectUrl("https://" + "google.com") == Ok(FullUrl)
  {
    BodyGoogle();
    DetectSchemeAndBody("https://", "google.com");
  }

  lemma DetectDoubleSlashUrl()
    ensures DetectUrl("//" + "google.com") == Ok(DoubleSlashUrl)
  {
    BodyGoogle();
    DetectSlashesAndBody("google.com");
  }

  lemma DetectHttplessUrl()
    ensures DetectUrl("google.com") == Ok(HttplessUrl)
  {
    BodyGoogle();
    DetectBody("google.com", "com");
  }

  lemma DetectSlashResourceName()
    ensures DetectUrl("/" + "script.js") == Ok(SlashResourceName)
  {
    DetectRootPath("script.js");
  }

  lemma DetectResourceName()
    ensures DetectUrl("script.js") == Ok(ResourceName)
  {
    assert "script.js"[0..6] == "script" && "script.js"[7..9] == "js";
    assert BodySplit("script.js", 0, 6, 9);
    DetectBody("script.js", "js");
  }

  lemma DetectBadUrl()
    ensures DetectUrl("badurl") == Err("Strange URL: badurl")
  {
    DetectNoDotNoSlash("badurl");
  }

  // tests/parser.js, "Can fix resource URLs correctly".

  lemma FixFullUrl()
    ensures FixUrl("http://" + "example.org/script.js", "http://example.org")
      == Ok("http://" + "example.org/script.js")
  {
    BodyExampleScript();
    DetectSchemeAndBody("http://", "example.org/script.js");
  }

  lemma FixDoubleSlashUrl()
    ensures FixUrl("//" + "example.org/script.js", "http://example.org")
      == Ok("http://" + "example.org/script.js")
  {
    BodyExampleScript();
    DetectSlashesAndBody("example.org/script.js");
    HttpColonBeforeSlashes("example.org/script.js");
  }

  /**
   * The test expects `http://example.org/script.js`; the reference ends in
   * `.js`, so detectURL calls it a resource name and fixUrl appends it to
   * the base.
   */
  lemma FixHostWithScriptPath()
    ensures DetectUrl("example.org" + "/script.js") == Ok(ResourceName)
    ensures FixUrl("example.org" + "/script.js", "http://example.org")
      == Ok("http://example.org/" + ("example.org" + "/script.js"))
  {
    var ref := "example.org" + "/script.js";
    assert ref[0..7] == "example" && ref[8..11] == "org" && ref[12..] == "script.js";
    assert BodySplit(ref, 0, 7, 11);
    assert IsLastSegment(ref, '.', "js");
    DetectBody(ref, "js");
    assert WithTrailingSlash("http://example.org") == "http://example.org/";
  }

  lemma FixSlashResourceName()
    ensures FixUrl("/" + "script.js", "http://example.org") == Ok("http://example.org/" + "script.js")
  {
    DetectSlashResourceName();
    assert ("/" + "script.js")[1..] == "script.js";
    assert WithTrailingSlash("http://example.org") == "http://example.org/";
  }

  lemma FixResourceName()
    ensures FixUrl("script" + ".js", "http://example.org") == Ok("http://example.org/" + ("script" + ".js"))
  {
    var ref := "script" + ".js";
    assert ref[0..6] == "script" && ref[7..9] == "js";
    assert BodySplit(ref, 0, 6, 9);
    assert IsLastSegment(ref, '.', "js");
    DetectBody(ref, "js");
    assert WithTrailingSlash("http://example.org") == "http://example.org/";
  }

  /** "scriptjs" is no URL: the callback hears of it twice. */
  lemma FixBadUrl()
    ensures FixUrlCallbacks("scriptjs", "https://example.org")
      == [Err("Strange URL: scriptjs"), Err("Strange Resource URL: 'scriptjs'")]
  {
    DetectNoDotNoSlash("scriptjs");
    assert "Strange URL: " + "scriptjs" == "Strange URL: scriptjs";
    assert "Strange Resource URL: '" + "scriptjs" + "'" == "Strange Resource URL: 'scriptjs'";
  }

  // Edge cases of the patterns.

  /** `.html` is not an ending that makes a resource name. */
  lemma DetectHtmlPage()
    ensures DetectUrl("index.html") == Ok(HttplessUrl)
  {
    assert "index.html"[0..5] == "index" && "index.html"[6..10] == "html";
    assert BodySplit("index.html", 0, 5, 10);
    DetectBody("index.html", "html");
  }

  /** `/` alone is a root-relative path; no file name or extension is needed. */
  lemma DetectRoot()
    ensures DetectUrl("/" + "") == Ok(SlashResourceName)
  {
    DetectRootPath("");
  }

  /** `//` followed by something that is no body is a root-relative path too. */
  lemma DetectDoubleSlashPath()
    ensures DetectUrl("/" + "/scripts") == Ok(SlashResourceName)
  {
    DetectDotlessPath("/scripts");
  }

  /**
   * A two-line reference whose second line is `//google.com` is
   * protocol-relative; fixUrl prefixes `http:` to the whole string, and the
   * result is protocol-relative again rather than a full URL.
   */
  lemma FixTwoLineReference()
    ensures DetectUrl("x" + "\n" + ("//" + "google.com")) == Ok(DoubleSlashUrl)
    ensures FixUrl("x" + "\n" + ("//" + "google.com"), "http://example.org") ==
      Ok("http:" + ("x" + "\n" + ("//" + "google.com")))
    ensures DetectUrl("http:" + ("x" + "\n" + ("//" + "google.com"))) == Ok(DoubleSlashUrl)
  {
    BodyGoogle();
    DetectSlashesAndBody("google.com");
    RejectedLine("x");
    FixUrlTwoLineReference("x", "//" + "google.com", "http://example.org");
  }

  /**
   * `.com` has a `.` yet no pattern accepts it, so the protocol-relative line
   * after it still decides.
   */
  lemma DetectAfterDotCom()
    ensures Rejected("." + "com")
    ensures DetectUrl(("." + "com") + "\n" + ("//" + "google.com")) == Ok(DoubleSlashUrl)
  {
    var a := "." + "com";
    assert a[1..] == "com";
    LeadingDotNoBody(a);
    assert IsSingleLine(a);
    BodyGoogle();
    DetectSlashesAndBody("google.com");
    DetectAfterRejectedLine(a, "//" + "google.com");
  }
}
