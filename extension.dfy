/** The file extension a downloaded page is saved under, inferred from the
    `content-type` header of the image response. */
module ContentType {
  import opened Wrappers

  /** Python's `needle in haystack` on strings: a contiguous, case-sensitive occurrence. */
  predicate Contains(haystack: string, needle: string)
    decreases |haystack|
  {
    needle <= haystack || (haystack != [] && Contains(haystack[1..], needle))
  }

  /** The extension used when the header is missing, empty or unrecognised. */
  const DefaultExtension: string := "png"

  /** Every extension a page can be saved under. */
  const KnownExtensions: set<string> := {"jpg", "png", "webp", "gif"}

  /** One line of the recognition table: if any needle occurs in the header,
      the page gets `extension`. */
  datatype Rule = Rule(needles: seq<string>, extension: string)

  /** The recognition table, in the order the rules are tried. */
  const Rules: seq<Rule> := [
    Rule(["jpeg", "jpg"], "jpg"),
    Rule(["png"], "png"),
    Rule(["webp"], "webp"),
    Rule(["gif"], "gif")
  ]

  predicate Matches(rule: Rule, header: string) {
    AnyOccurs(rule.needles, header)
  }

  predicate AnyOccurs(needles: seq<string>, header: string) {
    needles != [] && (Contains(header, needles[0]) || AnyOccurs(needles[1..], header))
  }

  /** The extension of the first rule of `rules` that matches `header`, if any. */
  function FirstMatch(rules: seq<Rule>, header: string): (r: Option<string>)
    ensures r.Some? ==> exists k :: 0 <= k < |rules| && Matches(rules[k], header) && rules[k].extension == r.value
                                    && forall j :: 0 <= j < k ==> !Matches(rules[j], header)
    ensures r.None? <==> forall k :: 0 <= k < |rules| ==> !Matches(rules[k], header)
  {
    if rules == [] then None
    else if Matches(rules[0], header) then Some(rules[0].extension)
    else FirstMatch(rules[1..], header)
  }

  /** The extension specified by the recognition table: a missing or empty
      header, or one no rule matches, gives the default. */
  function ExtensionFor(contentType: Option<string>): (extension: string)
    ensures extension in KnownExtensions
  {
    match contentType
    case None => DefaultExtension
    case Some(header) =>
      if header == "" then DefaultExtension else FirstMatch(Rules, header).GetOr(DefaultExtension)
  }

  /** The if-chain of the downloader, reassigning the extension from its default. */
  method InferExtension(contentType: Option<string>) returns (extension: string)
    ensures extension == ExtensionFor(contentType)
  {
    extension := DefaultExtension;
    if contentType.Some? && contentType.value != "" {
      var header := contentType.value;
      if Contains(header, "jpeg") || Contains(header, "jpg") {
        extension := "jpg";
      } else if Contains(header, "png") {
        extension := "png";
      } else if Contains(header, "webp") {
        extension := "webp";
      } else if Contains(header, "gif") {
        extension := "gif";
      }
      RulesInOrder(header);
    }
  }

  /** Unfolds the recognition table against one header. */
  lemma RulesInOrder(header: string)
    requires header != ""
    ensures Matches(Rules[0], header) <==> Contains(header, "jpeg") || Contains(header, "jpg")
    ensures Matches(Rules[1], header) <==> Contains(header, "png")
    ensures Matches(Rules[2], header) <==> Contains(header, "webp")
    ensures Matches(Rules[3], header) <==> Contains(header, "gif")
    ensures ExtensionFor(Some(header)) ==
      if Matches(Rules[0], header) then "jpg"
      else if Matches(Rules[1], header) then "png"
      else if Matches(Rules[2], header) then "webp"
      else if Matches(Rules[3], header) then "gif"
      else DefaultExtension
  {
    OneNeedle("jpg", header);
    assert Rules[0].needles[1..] == ["jpg"];
    OneNeedle("png", header);
    OneNeedle("webp", header);
    OneNeedle("gif", header);
    assert Rules[1..][1..][1..][1..] == [];
  }

  lemma OneNeedle(needle: string, header: string)
    ensures AnyOccurs([needle], header) <==> Contains(header, needle)
  {
    assert [needle][1..] == [];
  }

  /** Fixed precedence: a header naming jpeg or jpg gives `jpg` whatever else
      it names; `png` beats `webp` and `gif`; `webp` beats `gif`; anything else
      falls back to `png`. */
  lemma ExtensionPrecedence(header: string)
    ensures ExtensionFor(Some(header)) == "jpg" <==> Contains(header, "jpeg") || Contains(header, "jpg")
    ensures ExtensionFor(Some(header)) == "webp" <==>
      !Contains(header, "jpeg") && !Contains(header, "jpg") && !Contains(header, "png") && Contains(header, "webp")
    ensures ExtensionFor(Some(header)) == "gif" <==>
      !Contains(header, "jpeg") && !Contains(header, "jpg") && !Contains(header, "png") && !Contains(header, "webp")
      && Contains(header, "gif")
    ensures ExtensionFor(Some(header)) == "png" <==>
      !Contains(header, "jpeg") && !Contains(header, "jpg")
      && (Contains(header, "png") || (!Contains(header, "webp") && !Contains(header, "gif")))
  {
    if header != "" {
      RulesInOrder(header);
    } else {
      NothingInEmpty("jpeg");
      NothingInEmpty("jpg");
      NothingInEmpty("webp");
      NothingInEmpty("gif");
    }
  }

  lemma NothingInEmpty(needle: string)
    requires needle != ""
    ensures !Contains("", needle)
  {
  }

  /** A needle found at position `i` is contained in the haystack. */
  lemma {:induction false} ContainsAt(haystack: string, needle: string, i: nat)
    requires i <= |haystack| && needle <= haystack[i..]
    ensures Contains(haystack, needle)
  {
    if i > 0 {
      assert haystack[1..][i - 1..] == haystack[i..];
      ContainsAt(haystack[1..], needle, i - 1);
    }
  }

  /** A missing header, or one containing none of the recognised names, gives `png`. */
  lemma DefaultWhenUnrecognised(contentType: Option<string>)
    requires contentType.Some? ==>
      forall needle :: needle in ["jpeg", "jpg", "png", "webp", "gif"] ==> !Contains(contentType.value, needle)
    ensures ExtensionFor(contentType) == DefaultExtension
  {
    if contentType.Some? {
      ExtensionPrecedence(contentType.value);
    }
  }

  /** Every character of an occurring needle occurs in the haystack. */
  lemma {:induction false} ContainsCharsOf(haystack: string, needle: string, k: nat)
    requires Contains(haystack, needle) && k < |needle|
    ensures needle[k] in haystack
    decreases |haystack|
  {
    if needle <= haystack {
      assert haystack[k] == needle[k];
    } else {
      ContainsCharsOf(haystack[1..], needle, k);
    }
  }

  /** A header in which none of the letters j, p, w and f occurs matches no rule. */
  lemma NoRuleWithout(header: string)
    requires 'j' !in header && 'p' !in header && 'w' !in header && 'f' !in header
    ensures ExtensionFor(Some(header)) == DefaultExtension
  {
    if Contains(header, "jpeg") { ContainsCharsOf(header, "jpeg", 0); }
    if Contains(header, "jpg") { ContainsCharsOf(header, "jpg", 0); }
    if Contains(header, "png") { ContainsCharsOf(header, "png", 0); }
    if Contains(header, "webp") { ContainsCharsOf(header, "webp", 0); }
    if Contains(header, "gif") { ContainsCharsOf(header, "gif", 2); }
    ExtensionPrecedence(header);
  }

  /** The match is case-sensitive: an upper-case `image/JPEG` is not recognised
      and falls back to `png`. */
  lemma UpperCaseFallsBack()
    ensures ExtensionFor(Some("image/JPEG")) == "png"
  {
    NoRuleWithout("image/JPEG");
  }

  /** A header naming webp, and none of jpeg, jpg and png, gives `webp`,
      whether or not it also names gif. */
  lemma WebpOnly(header: string)
    requires Contains(header, "webp")
    requires !Contains(header, "jpeg") && !Contains(header, "jpg") && !Contains(header, "png")
    ensures ExtensionFor(Some(header)) == "webp"
  {
    ExtensionPrecedence(header);
  }

  /** A header without the letters j and n names none of jpeg, jpg and png. */
  lemma NoJpegNorPng(header: string)
    requires 'j' !in header && 'n' !in header
    ensures !Contains(header, "jpeg") && !Contains(header, "jpg") && !Contains(header, "png")
  {
    if Contains(header, "jpeg") { ContainsCharsOf(header, "jpeg", 0); }
    if Contains(header, "jpg") { ContainsCharsOf(header, "jpg", 0); }
    if Contains(header, "png") { ContainsCharsOf(header, "png", 1); }
  }

  /** A header naming webp and without the letters j and n gives `webp`. */
  lemma WebpWithoutJN(header: string)
    requires Contains(header, "webp") && 'j' !in header && 'n' !in header
    ensures ExtensionFor(Some(header)) == "webp"
  {
    NoJpegNorPng(header);
    WebpOnly(header);
  }

  /** The usual image types: `image/webp` gives `webp`, `image/jpeg` gives
      `jpg`, and no header at all gives `png`. */
  lemma CommonHeaders()
    ensures ExtensionFor(Some("image/webp")) == "webp"
    ensures ExtensionFor(Some("image/jpeg")) == "jpg"
    ensures ExtensionFor(None) == "png"
  {
    ContainsAt("image/webp", "webp", 6);
    WebpWithoutJN("image/webp");
    ContainsAt("image/jpeg", "jpeg", 6);
    ExtensionPrecedence("image/jpeg");
  }
}
