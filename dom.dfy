/** A rendered page as the scraper sees it through the browser: a fixed,
    deterministic value in place of the live DOM.  Every read that the
    browser could fail with an exception yields a `Try`. */
module Dom {
  import opened Wrappers

  type Selector = string

  /** The result of `element.getAttribute(name)`: `None` stands for `null`. */
  type Attribute = Try<Option<string>>

  /** One element handle: its `textContent` read and its attribute reads. */
  datatype Element = Element(text: Try<string>, attributes: map<string, Attribute>)

  /** A page:
      - `elements`: what `querySelector(sel)` gives for each selector that
        matches or raises; any other selector matches nothing;
      - `images`: `querySelectorAll("img")`, as the `src` read of each image
        in document order;
      - `anchors`: `querySelectorAll("a[href*='/products/']")`, as the
        `href` read of each anchor in document order;
      - `priceAppears`: whether `waitForSelector("span.mw-price")` returns
        within its timeout rather than raising. */
  datatype Page = Page(
    elements: map<Selector, Try<Option<Element>>>,
    images: Try<seq<Attribute>>,
    anchors: Try<seq<Attribute>>,
    priceAppears: bool)

  /** `page.querySelector(sel)`. */
  function QuerySelector(p: Page, sel: Selector): Try<Option<Element>> {
    if sel in p.elements then p.elements[sel] else Ok(None)
  }

  /** `element.getAttribute(name)`. */
  function GetAttribute(e: Element, name: string): Attribute {
    if name in e.attributes then e.attributes[name] else Ok(None)
  }
}
