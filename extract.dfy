/** Reading one product page: the selector fallback chain, the SKU, image and
    price extractors, and the record built from them. */
module Extract {
  import opened Wrappers
  import opened Text
  import opened Dom
  import opened Sku

  const ORIGIN := "https://spinetohogar.com"

  const NAME_SELECTORS: seq<Selector> := ["h1.product__title", "h1.product-title", "h1"]
  const BRAND_SELECTORS: seq<Selector> := ["div.product__vendor", "a.product__vendor", ".vendor"]
  const SKU_SELECTORS: seq<Selector> :=
    ["span.product__sku.fs-body-50.t-opacity-70", "span.product__sku", ".product-sku", ".sku", "div.product__sku"]
  const PRICE_SELECTOR: Selector := "span.mw-price"
  const META_PRICE_SELECTOR: Selector := "meta[property='og:price:amount']"

  /** Substrings that mark a decorative image rather than a product photo. */
  const IMAGE_DENYLIST: seq<string> := ["Logo", "Navidad", "banner"]

  const NO_IMAGE := "No disponible"
  const NO_PRICE := "Precio no disponible"
  const NO_NAME := "Nombre no disponible"
  const NO_SKU := "SKU no disponible"

  // ---------------------------------------------------------------------
  // The selector fallback chain

  /** A selector yields text when its element exists, reading its text does
      not raise, and the text is not blank. */
  predicate Yields(p: Page, sel: Selector) {
    var q := QuerySelector(p, sel);
    q.Ok? && q.value.Some? && q.value.value.text.Ok? && Strip(q.value.value.text.value) != ""
  }

  function YieldedText(p: Page, sel: Selector): string
    requires Yields(p, sel)
  {
    Strip(QuerySelector(p, sel).value.value.text.value)
  }

  /** The stripped text of the first selector, in list order, that yields
      text; "" when none does.  A selector whose lookup or read raises is
      skipped like one that matches nothing. */
  function GetText(p: Page, selectors: seq<Selector>): (r: string)
    ensures IsStripped(r)
  {
    if selectors == [] then ""
    else
      var rest := GetText(p, selectors[1..]);
      match QuerySelector(p, selectors[0])
      case Raised => rest
      case Ok(None) => rest
      case Ok(Some(e)) =>
        match e.text
        case Raised => rest
        case Ok(txt) => if txt != "" && Strip(txt) != "" then Strip(txt) else rest
  }

  /** Selector i is the first in the list that yields text. */
  predicate FirstYielding(p: Page, selectors: seq<Selector>, i: nat) {
    i < |selectors| && Yields(p, selectors[i]) && forall j :: 0 <= j < i ==> !Yields(p, selectors[j])
  }

  /** One step of the chain: the head selector's text if it yields any,
      otherwise whatever the rest of the chain gives. */
  lemma GetTextStep(p: Page, selectors: seq<Selector>)
    requires selectors != []
    ensures GetText(p, selectors) ==
      if Yields(p, selectors[0]) then YieldedText(p, selectors[0]) else GetText(p, selectors[1..])
  {
    assert Strip("") == "";
  }

  /** The fallback chain returns "" exactly when no selector yields text. */
  lemma {:induction false} GetTextBlank(p: Page, selectors: seq<Selector>)
    ensures GetText(p, selectors) == "" <==> forall i :: 0 <= i < |selectors| ==> !Yields(p, selectors[i])
  {
    if selectors != [] {
      var tail := selectors[1..];
      GetTextBlank(p, tail);
      GetTextStep(p, selectors);
      if !Yields(p, selectors[0]) {
        forall i | 1 <= i < |selectors| ensures selectors[i] == tail[i - 1] { }
      }
    }
  }

  /** A non-empty result is the text of the first selector that yields any. */
  lemma {:induction false} GetTextFirst(p: Page, selectors: seq<Selector>)
    requires GetText(p, selectors) != ""
    ensures exists i: nat :: FirstYielding(p, selectors, i) && GetText(p, selectors) == YieldedText(p, selectors[i])
  {
    var tail := selectors[1..];
    GetTextStep(p, selectors);
    if Yields(p, selectors[0]) {
      assert FirstYielding(p, selectors, 0);
    } else {
      GetTextFirst(p, tail);
      var i: nat :| FirstYielding(p, tail, i) && GetText(p, tail) == YieldedText(p, tail[i]);
      forall j | 0 <= j < i + 1 ensures !Yields(p, selectors[j]) {
        if j > 0 {
          assert selectors[j] == tail[j - 1];
        }
      }
      assert FirstYielding(p, selectors, i + 1);
    }
  }

  /** The SKU printed on the page, without its "SKU:" label. */
  function ExtractSku(p: Page): (r: string)
    ensures IsStripped(r)
    ensures GetText(p, SKU_SELECTORS) == "" ==> r == ""
  {
    StripSkuLabel(GetText(p, SKU_SELECTORS))
  }

  // ---------------------------------------------------------------------
  // The product image

  /** An image source that is a product photo: present, on the CDN path, and
      free of every denylisted token (case-sensitive). */
  predicate IsProductImage(src: Option<string>) {
    && src.Some? && src.value != ""
    && Contains(src.value, "/cdn/")
    && forall k :: 0 <= k < |IMAGE_DENYLIST| ==> !Contains(src.value, IMAGE_DENYLIST[k])
  }

  /** The first i image sources were read without raising and none of them
      is a product photo. */
  predicate SkippedImages(srcs: seq<Attribute>, i: nat)
    requires i <= |srcs|
  {
    forall j :: 0 <= j < i ==> srcs[j].Ok? && !IsProductImage(srcs[j].value)
  }

  /** The first product photo in document order; `Raised` if reading a
      source raises before one is found. */
  function FirstImage(srcs: seq<Attribute>): (r: Try<Option<string>>)
    ensures r == Ok(None) <==> SkippedImages(srcs, |srcs|)
    ensures r.Ok? && r.value.Some? ==>
      (exists i :: 0 <= i < |srcs| && SkippedImages(srcs, i) && srcs[i] == Ok(r.value) && IsProductImage(r.value))
    ensures r.Raised? ==> (exists i :: 0 <= i < |srcs| && SkippedImages(srcs, i) && srcs[i].Raised?)
  {
    if srcs == [] then Ok(None)
    else
      match srcs[0]
      case Raised => Raised
      case Ok(src) =>
        if IsProductImage(src) then Ok(src)
        else
          var r := FirstImage(srcs[1..]);
          SkipImage(srcs, r);
          r
  }

  /** The three promises of `FirstImage` about the sources srcs and a
      result r. */
  predicate FirstImageSpec(srcs: seq<Attribute>, r: Try<Option<string>>) {
    && (r == Ok(None) <==> SkippedImages(srcs, |srcs|))
    && (r.Ok? && r.value.Some? ==>
      (exists i :: 0 <= i < |srcs| && SkippedImages(srcs, i) && srcs[i] == Ok(r.value) && IsProductImage(r.value)))
    && (r.Raised? ==> (exists i :: 0 <= i < |srcs| && SkippedImages(srcs, i) && srcs[i].Raised?))
  }

  /** Skipping a first source that is not a product photo keeps the promises
      of the search over the rest. */
  lemma SkipImage(srcs: seq<Attribute>, r: Try<Option<string>>)
    requires srcs != [] && srcs[0].Ok? && !IsProductImage(srcs[0].value)
    requires FirstImageSpec(srcs[1..], r)
    ensures FirstImageSpec(srcs, r)
  {
    var tail := srcs[1..];
    if r.Ok? && r.value.Some? {
      var i :| 0 <= i < |tail| && SkippedImages(tail, i) && tail[i] == Ok(r.value) && IsProductImage(r.value);
      SkippedCons(srcs, i);
      assert srcs[i + 1] == tail[i];
    }
    if r.Raised? {
      var i :| 0 <= i < |tail| && SkippedImages(tail, i) && tail[i].Raised?;
      SkippedCons(srcs, i);
      assert srcs[i + 1] == tail[i];
    }
    if SkippedImages(srcs, |srcs|) {
      SkippedTail(srcs, |srcs|);
    }
    if r == Ok(None) {
      SkippedCons(srcs, |tail|);
    }
  }

  lemma SkippedCons(srcs: seq<Attribute>, i: nat)
    requires i < |srcs| && srcs[0].Ok? && !IsProductImage(srcs[0].value)
    requires SkippedImages(srcs[1..], i)
    ensures SkippedImages(srcs, i + 1)
  {
    forall j | 1 <= j < i + 1 ensures srcs[j].Ok? && !IsProductImage(srcs[j].value) {
      assert srcs[j] == srcs[1..][j - 1];
    }
  }

  lemma SkippedTail(srcs: seq<Attribute>, i: nat)
    requires 0 < i <= |srcs| && SkippedImages(srcs, i)
    ensures SkippedImages(srcs[1..], i - 1)
  {
    forall j | 0 <= j < i - 1 ensures srcs[1..][j].Ok? && !IsProductImage(srcs[1..][j].value) {
      assert srcs[1..][j] == srcs[j + 1];
    }
  }

  /** Makes an image source absolute: protocol-relative "//…" gets "https:",
      root-relative "/…" gets the storefront's origin, anything else is kept.
      The source is always the tail of the result, and a source starting with
      "/" always ends up as an https URL. */
  function ResolveImageUrl(src: string): (r: string)
    ensures EndsWith(r, src)
    ensures StartsWith(src, "/") ==> StartsWith(r, "https://")
    ensures StartsWith(src, "//") ==> r == "https:" + src
    ensures StartsWith(src, "/") && !StartsWith(src, "//") ==> r == ORIGIN + src
    ensures !StartsWith(src, "/") ==> r == src
  {
    if StartsWith(src, "//") then "https:" + src
    else if StartsWith(src, "/") then ORIGIN + src
    else src
  }

  /** The absolute URL of the first product photo, or `NO_IMAGE`.  Nothing
      here catches exceptions: a raising read raises out of the page. */
  function ExtractImageUrl(p: Page): (r: Try<string>)
    ensures r.Raised? <==> p.images.Raised? || FirstImage(p.images.value).Raised?
    ensures r == Ok(NO_IMAGE) <==> p.images.Ok? && SkippedImages(p.images.value, |p.images.value|)
    ensures r.Ok? && r.value != NO_IMAGE ==> Contains(r.value, "/cdn/")
    ensures r.Ok? && r.value != NO_IMAGE ==>
      && p.images.Ok?
      && exists i :: 0 <= i < |p.images.value| && SkippedImages(p.images.value, i) &&
           p.images.value[i].Ok? && IsProductImage(p.images.value[i].value) &&
           r.value == ResolveImageUrl(p.images.value[i].value.value)
  {
    match p.images
    case Raised => Raised
    case Ok(srcs) =>
      match FirstImage(srcs)
      case Raised => Raised
      case Ok(None) => Ok(NO_IMAGE)
      case Ok(Some(src)) =>
        ResolvedImageOnCdn(src);
        Ok(ResolveImageUrl(src))
  }

  /** A resolved product photo still names the CDN path, so it is never the
      "No disponible" sentinel. */
  lemma ResolvedImageOnCdn(src: string)
    requires Contains(src, "/cdn/")
    ensures Contains(ResolveImageUrl(src), "/cdn/")
    ensures ResolveImageUrl(src) != NO_IMAGE
  {
    var r := ResolveImageUrl(src);
    if StartsWith(src, "//") {
      ContainsAppend("https:", src, "/cdn/");
    } else if StartsWith(src, "/") {
      ContainsAppend(ORIGIN, src, "/cdn/");
    }
    ContainsHead(r, "/cdn/");
    assert '/' !in NO_IMAGE;
  }

  // ---------------------------------------------------------------------
  // The price

  /** Why the primary tier gives nothing, reason by reason: the wait for
      `span.mw-price` timed out, the lookup raised or found nothing, reading
      the text raised, or the untrimmed text is empty or ends in the "0,00"
      placeholder. */
  predicate PrimaryTierFails(p: Page) {
    var q := QuerySelector(p, PRICE_SELECTOR);
    || !p.priceAppears
    || !(q.Ok? && q.value.Some?)
    || q.value.value.text.Raised?
    || q.value.value.text.value == ""
    || EndsWith(q.value.value.text.value, "0,00")
  }

  /** The untrimmed text of the price element, when the primary tier succeeds. */
  function PriceText(p: Page): string
    requires !PrimaryTierFails(p)
  {
    QuerySelector(p, PRICE_SELECTOR).value.value.text.value
  }

  /** Why the fallback tier gives nothing: the meta lookup raised or found
      nothing, or its `content` read raised, was `null` or was empty. */
  predicate MetaTierFails(p: Page) {
    var q := QuerySelector(p, META_PRICE_SELECTOR);
    || !(q.Ok? && q.value.Some?)
    || !(GetAttribute(q.value.value, "content").Ok? && GetAttribute(q.value.value, "content").value.Some?)
    || GetAttribute(q.value.value, "content").value.value == ""
  }

  /** The `content` of the meta tag, when the fallback tier succeeds. */
  function MetaAmount(p: Page): string
    requires !MetaTierFails(p)
  {
    GetAttribute(QuerySelector(p, META_PRICE_SELECTOR).value.value, "content").value.value
  }

  /** The primary tier, inside its own `try`: a timeout or a raising read
      gives `None` like a missing element. */
  function PrimaryPrice(p: Page): (r: Option<string>)
    ensures r.None? <==> PrimaryTierFails(p)
    ensures r.Some? ==> r.value == Strip(PriceText(p)) && IsStripped(r.value)
  {
    if !p.priceAppears then None
    else
      match QuerySelector(p, PRICE_SELECTOR)
      case Raised => None
      case Ok(None) => None
      case Ok(Some(e)) =>
        match e.text
        case Raised => None
        case Ok(txt) => if txt != "" && !EndsWith(txt, "0,00") then Some(Strip(txt)) else None
  }

  /** The fallback tier, inside its own `try`: a raising read gives `None`
      like a missing tag. */
  function MetaPrice(p: Page): (r: Option<string>)
    ensures r.None? <==> MetaTierFails(p)
    ensures r.Some? ==> r.value == MetaAmount(p) && r.value != ""
  {
    match QuerySelector(p, META_PRICE_SELECTOR)
    case Raised => None
    case Ok(None) => None
    case Ok(Some(e)) =>
      match GetAttribute(e, "content")
      case Ok(Some(v)) => if v != "" then Some(v) else None
      case _ => None
  }

  /** The price shown for a product: the primary tier, else "US$ " and the
      meta amount, else the `NO_PRICE` sentinel.  Both tiers catch their own
      exceptions, so this never raises. */
  function ExtractPrice(p: Page): (r: string)
    ensures !PrimaryTierFails(p) ==> r == Strip(PriceText(p))
    ensures PrimaryTierFails(p) && !MetaTierFails(p) ==> r == "US$ " + MetaAmount(p)
    ensures PrimaryTierFails(p) && MetaTierFails(p) ==> r == NO_PRICE
  {
    match PrimaryPrice(p)
    case Some(txt) => txt
    case None =>
      match MetaPrice(p)
      case Some(v) => "US$ " + v
      case None => NO_PRICE
  }

  /** An accepted primary text is the price, stripped. */
  lemma PriceFromPrimary(p: Page, e: Element, txt: string)
    requires p.priceAppears && QuerySelector(p, PRICE_SELECTOR) == Ok(Some(e)) && e.text == Ok(txt)
    requires txt != "" && !EndsWith(txt, "0,00")
    ensures ExtractPrice(p) == Strip(txt)
  {
    assert !PrimaryTierFails(p);
  }

  /** A primary text ending in "0,00" (so also "10,00") is treated exactly
      like a price element that never appeared. */
  lemma PlaceholderPriceIgnored(p: Page, e: Element, txt: string)
    requires QuerySelector(p, PRICE_SELECTOR) == Ok(Some(e)) && e.text == Ok(txt)
    requires EndsWith(txt, "0,00")
    ensures ExtractPrice(p) == ExtractPrice(p.(priceAppears := false))
  {
  }

  /** The placeholder check looks at the untrimmed text: "0,00 " with a
      trailing blank passes it and is shown as "0,00". */
  lemma PaddedPlaceholderAccepted(p: Page, e: Element)
    requires p.priceAppears && QuerySelector(p, PRICE_SELECTOR) == Ok(Some(e)) && e.text == Ok("0,00 ")
    ensures ExtractPrice(p) == "0,00"
  {
    PaddedPlaceholderText();
    PriceFromPrimary(p, e, "0,00 ");
  }

  lemma PaddedPlaceholderText()
    ensures !EndsWith("0,00 ", "0,00") && Strip("0,00 ") == "0,00"
  {
    assert "0,00 "[4] != "0,00"[3];
    StripSpaceSnoc("0,00", ' ');
    assert "0,00" + [' '] == "0,00 ";
    StripStripped("0,00");
  }

  lemma UsdPriceIsNotSentinel(v: string)
    ensures "US$ " + v != NO_PRICE
  {
    assert ("US$ " + v)[0] == 'U';
  }

  /** The sentinel is returned exactly when both tiers fail, or when the
      primary text itself reads "Precio no disponible". */
  lemma NoPriceOnlyWhenBothTiersFail(p: Page)
    ensures ExtractPrice(p) == NO_PRICE <==>
      (PrimaryTierFails(p) && MetaTierFails(p)) || (!PrimaryTierFails(p) && Strip(PriceText(p)) == NO_PRICE)
  {
    if PrimaryTierFails(p) && !MetaTierFails(p) {
      UsdPriceIsNotSentinel(MetaAmount(p));
    }
  }

  // ---------------------------------------------------------------------
  // The product record

  /** One visited candidate page.  `found` is always true; `matched` compares
      the keys of the SKU read from the page and of the requested SKU. */
  datatype Product = Product(
    found: bool, matched: bool, url: string, name: string, price: string,
    brand: string, sku: string, imageUrl: string)

  /** Builds the record of a product page.  Missing fields get placeholders;
      the match is decided on the SKU as read, before its placeholder, so a
      page without a SKU matches a request whose key is empty.  Only the image
      extraction can raise. */
  function ExtractProductDetails(p: Page, url: string, skuInput: string): (r: Try<Product>)
    ensures r.Raised? <==> ExtractImageUrl(p).Raised?
    ensures r.Ok? ==> r.value.found && r.value.url == url
    ensures r.Ok? ==> (r.value.matched <==> NormalizeSku(Some(ExtractSku(p))) == NormalizeSku(Some(skuInput)))
    ensures r.Ok? ==> r.value.name != "" && r.value.sku != "" && r.value.price == ExtractPrice(p)
    ensures r.Ok? ==> r.value.imageUrl == ExtractImageUrl(p).value
    ensures r.Ok? ==> (r.value.sku == ExtractSku(p) || (ExtractSku(p) == "" && r.value.sku == NO_SKU))
    ensures r.Ok? ==> (r.value.name == GetText(p, NAME_SELECTORS) || (GetText(p, NAME_SELECTORS) == "" && r.value.name == NO_NAME))
    ensures r.Ok? ==> r.value.brand == GetText(p, BRAND_SELECTORS)
  {
    var name := GetText(p, NAME_SELECTORS);
    var price := ExtractPrice(p);
    var brand := GetText(p, BRAND_SELECTORS);
    var sku := ExtractSku(p);
    match ExtractImageUrl(p)
    case Raised => Raised
    case Ok(imageUrl) =>
      Ok(Product(
        found := true,
        matched := NormalizeSku(Some(sku)) == NormalizeSku(Some(skuInput)),
        url := url,
        name := if name == "" then NO_NAME else name,
        price := price,
        brand := brand,
        sku := if sku == "" then NO_SKU else sku,
        imageUrl := imageUrl))
  }

  /** A page without a SKU matches every request whose key is empty (such as
      "#" or " "), and the record then shows the SKU placeholder. */
  lemma BlankSkuMatchesBlankRequest(p: Page, url: string, skuInput: string)
    requires ExtractSku(p) == "" && NormalizeSku(Some(skuInput)) == ""
    requires ExtractImageUrl(p).Ok?
    ensures ExtractProductDetails(p, url, skuInput).Ok?
    ensures ExtractProductDetails(p, url, skuInput).value.matched
    ensures ExtractProductDetails(p, url, skuInput).value.sku == NO_SKU
  {
    StripStripped("");
    LowerNoUpper("");
  }

  /** A matching record that shows a real SKU shows one with the requested key. */
  lemma MatchedRecordSku(p: Page, url: string, skuInput: string)
    requires ExtractProductDetails(p, url, skuInput).Ok?
    requires ExtractProductDetails(p, url, skuInput).value.matched
    requires ExtractSku(p) != ""
    ensures NormalizeSku(Some(ExtractProductDetails(p, url, skuInput).value.sku)) == NormalizeSku(Some(skuInput))
  {
  }
}
