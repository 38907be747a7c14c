/** What "the same SKU" means: the normalised comparison key, and the
    clean-up of the SKU text read from a product page. */
module Sku {
  import opened Wrappers
  import opened Text

  /** The comparison key of a SKU: `None` and "" give "", anything else is
      stripped, lower-cased, and loses every ' ' and every '#'. */
  function NormalizeSku(s: Option<string>): (r: string)
    ensures s.None? ==> r == ""
    ensures s.Some? ==> |r| <= |s.value|
  {
    RemoveAll(RemoveAll(Lower(Strip(if s.Some? then s.value else "")), " "), "#")
  }

  /** The key never holds a space, a '#' or an upper-case letter, and it is
      never longer than the input; `None` gives the empty key. */
  lemma NormalizeSkuAlphabet(s: Option<string>)
    ensures var r := NormalizeSku(s);
      && ' ' !in r && '#' !in r && NoUpper(r)
      && (s.None? ==> r == "")
      && (s.Some? ==> |r| <= |s.value|)
  {
    var t := Lower(Strip(if s.Some? then s.value else ""));
    var u := RemoveAll(t, " ");
    var r := RemoveAll(u, "#");
    RemoveAllGone(t, ' ');
    RemoveAllGone(u, '#');
    forall c | c in r ensures c in u && c in t {
      RemoveAllKeeps(u, "#", c);
      RemoveAllKeeps(t, " ", c);
    }
  }

  /** The key of s, step by step. */
  lemma NormalizeSkuSteps(s: string, stripped: string, lowered: string, spaceless: string, r: string)
    requires Strip(s) == stripped && Lower(stripped) == lowered
    requires RemoveAll(lowered, " ") == spaceless && RemoveAll(spaceless, "#") == r
    ensures NormalizeSku(Some(s)) == r
  {
  }

  /** The key of a string that is already a key of itself. */
  lemma NormalizeSkuPlain(s: string)
    requires IsStripped(s) && NoUpper(s) && ' ' !in s && '#' !in s
    ensures NormalizeSku(Some(s)) == s
  {
    StripStripped(s);
    LowerNoUpper(s);
    ContainsChar(s, ' ');
    ContainsChar(s, '#');
  }

  lemma StripCodeExample()
    ensures Strip("N #55028 ") == "N #55028"
  {
    assert StripRight("N #55028 ") == StripRight("N #55028") == "N #55028";
    assert StripLeft("N #55028 ") == "N #55028 ";
  }

  lemma LowerCodeExample()
    ensures Lower("N #55028") == "n #55028"
  {
  }

  lemma RemoveSpaceExample()
    ensures RemoveAll("n #55028", " ") == "n#55028"
  {
    RemoveOneAt("n #55028", "n", ' ', "#55028", "n#55028");
  }

  lemma RemoveHashExample()
    ensures RemoveAll("n#55028", "#") == "n55028"
  {
    RemoveOneAt("n#55028", "n", '#', "55028", "n55028");
  }

  lemma SpacedCodeKey()
    ensures NormalizeSku(Some("N #55028 ")) == "n55028"
  {
    StripCodeExample();
    LowerCodeExample();
    RemoveSpaceExample();
    RemoveHashExample();
    NormalizeSkuSteps("N #55028 ", "N #55028", "n #55028", "n#55028", "n55028");
  }

  lemma PlainCodeKey()
    ensures NormalizeSku(Some("n55028")) == "n55028"
  {
    NormalizeSkuPlain("n55028");
  }

  /** The two spellings quoted for the storefront's codes share one key. */
  lemma NormalizeSkuExample()
    ensures NormalizeSku(Some("N #55028 ")) == NormalizeSku(Some("n55028")) == "n55028"
  {
    SpacedCodeKey();
    PlainCodeKey();
  }

  /** Normalising a second time changes the key exactly when the first key
      still has whitespace at one of its ends (a tab or newline hidden behind
      a '#' or a space survives the first pass). */
  lemma NormalizeSkuIdempotentIff(s: Option<string>)
    ensures NormalizeSku(Some(NormalizeSku(s))) == NormalizeSku(s) <==> IsStripped(NormalizeSku(s))
  {
    var t := NormalizeSku(s);
    NormalizeSkuAlphabet(s);
    if IsStripped(t) {
      NormalizeSkuPlain(t);
    } else {
      NormalizeSkuShorter(t);
    }
  }

  /** A string with whitespace at one end has a strictly shorter key. */
  lemma NormalizeSkuShorter(t: string)
    requires !IsStripped(t)
    ensures |NormalizeSku(Some(t))| < |t|
  {
    StripShorter(t);
  }

  /** Every whitespace character of the key comes from the input. */
  lemma NormalizeSkuSpaceFromInput(s: string, c: char)
    requires c in NormalizeSku(Some(s)) && IsSpace(c)
    ensures c in s
  {
    var st := Strip(s);
    var lo := Lower(st);
    var noSpace := RemoveAll(lo, " ");
    RemoveAllKeeps(noSpace, "#", c);
    RemoveAllKeeps(lo, " ", c);
    LowerKeeps(st, c);
    StripKeeps(s, c);
  }

  /** When the only whitespace in the input is ' ', normalising is idempotent. */
  lemma NormalizeSkuIdempotent(s: string)
    requires forall i :: 0 <= i < |s| && IsSpace(s[i]) ==> s[i] == ' '
    ensures NormalizeSku(Some(NormalizeSku(Some(s)))) == NormalizeSku(Some(s))
  {
    var t := NormalizeSku(Some(s));
    NormalizeSkuAlphabet(Some(s));
    if t != [] {
      if IsSpace(t[0]) {
        NormalizeSkuSpaceFromInput(s, t[0]);
      }
      if IsSpace(t[|t| - 1]) {
        NormalizeSkuSpaceFromInput(s, t[|t| - 1]);
      }
    }
    NormalizeSkuIdempotentIff(Some(s));
  }

  lemma TabSpaceExample()
    ensures RemoveAll("# \tx", " ") == "#\tx"
  {
    RemoveOneAt("# \tx", "#", ' ', "\tx", "#\tx");
  }

  lemma TabHashExample()
    ensures RemoveAll("#\tx", "#") == "\tx"
  {
    RemoveOneAt("#\tx", "", '#', "\tx", "\tx");
  }

  lemma TabKeyExample()
    ensures NormalizeSku(Some("# \tx")) == "\tx"
  {
    StripStripped("# \tx");
    LowerNoUpper("# \tx");
    TabSpaceExample();
    TabHashExample();
    NormalizeSkuSteps("# \tx", "# \tx", "# \tx", "#\tx", "\tx");
  }

  lemma TabStripExample()
    ensures Strip("\tx") == "x"
  {
    StripSpaceCons('\t', "x");
    assert "\tx" == ['\t'] + "x";
    StripStripped("x");
  }

  lemma TabRekeyExample()
    ensures NormalizeSku(Some("\tx")) == "x"
  {
    TabStripExample();
    LowerNoUpper("x");
    RemoveAbsent("x", " ");
    RemoveAbsent("x", "#");
    NormalizeSkuSteps("\tx", "x", "x", "x", "x");
  }

  /** Idempotence fails in general: "# \tx" keys to "\tx", which keys to "x". */
  lemma NormalizeSkuNotIdempotent()
    ensures NormalizeSku(Some(NormalizeSku(Some("# \tx")))) != NormalizeSku(Some("# \tx"))
  {
    TabKeyExample();
    TabRekeyExample();
  }

  /** The key ignores letter case. */
  lemma NormalizeSkuIgnoresCase(s: string)
    ensures NormalizeSku(Some(Lower(s))) == NormalizeSku(Some(s))
  {
    StripLower(s);
    LowerTwice(Strip(s));
  }

  /** The SKU text of a product page without its "SKU:" labels: "" stays "",
      and the result is stripped and no longer than the text. */
  function StripSkuLabel(raw: string): (r: string)
    ensures IsStripped(r) && |r| <= |raw|
    ensures raw == "" ==> r == ""
    ensures !Contains(raw, "SKU:") ==> r == Strip(raw)
  {
    if raw == "" then "" else Strip(RemoveAll(raw, "SKU:"))
  }

  /** The first label goes with nothing around it touched: the text before
      it is kept, and the removal resumes right after it. */
  lemma StripSkuLabelFirst(raw: string, i: nat)
    requires OccursAt(raw, "SKU:", i) && forall j :: 0 <= j < i ==> !OccursAt(raw, "SKU:", j)
    ensures i + 4 <= |raw|
    ensures StripSkuLabel(raw) == Strip(raw[..i] + RemoveAll(raw[i + 4..], "SKU:"))
  {
    RemoveAllFirst(raw, "SKU:", i);
  }

  /** A stripped text without a label is kept as it is. */
  lemma StripSkuLabelUnlabelled(raw: string)
    requires IsStripped(raw) && !Contains(raw, "SKU:")
    ensures StripSkuLabel(raw) == raw
  {
    if raw != "" {
      StripStripped(raw);
    }
  }

  /** A "SKU:" label and the blank after it go, leaving the code: for a
      stripped code without a label, "SKU: " + code gives the code. */
  lemma StripSkuLabelPrefix(code: string)
    requires IsStripped(code) && !Contains(code, "SKU:")
    ensures StripSkuLabel("SKU: " + code) == code
  {
    RemoveLabelHead(code);
    StripSpaceCons(' ', code);
    StripStripped(code);
  }

  lemma RemoveLabelHead(code: string)
    requires !Contains(code, "SKU:")
    ensures RemoveAll("SKU: " + code, "SKU:") == [' '] + code
  {
    var s := "SKU: " + code;
    assert s[..4] == "SKU:" && s[4..] == [' '] + code;
    NoLabelAfterBlank(code);
  }

  lemma NoLabelAfterBlank(code: string)
    requires !Contains(code, "SKU:")
    ensures !Contains([' '] + code, "SKU:")
  {
    var rest := [' '] + code;
    assert rest[1..] == code;
    assert rest[0] == ' ';
  }

  lemma RemoveSplitLabel()
    ensures RemoveAll("SKSKU:U:", "SKU:") == "SKU:"
  {
    RemoveAbsent("U:", "SKU:");
    assert RemoveAll("SKU:U:", "SKU:") == "U:";
    assert RemoveAll("KSKU:U:", "SKU:") == "K" + RemoveAll("SKU:U:", "SKU:");
    assert RemoveAll("SKSKU:U:", "SKU:") == "S" + RemoveAll("KSKU:U:", "SKU:");
  }

  /** Removal is a single left-to-right pass, so a label split by another
      label reappears: "SKSKU:U:" becomes "SKU:". */
  lemma StripSkuLabelSinglePass()
    ensures StripSkuLabel("SKSKU:U:") == "SKU:"
  {
    RemoveSplitLabel();
    StripSkuLabelOf("SKSKU:U:", "SKU:");
  }

  /** The label-free text, when it is already stripped, is the result. */
  lemma StripSkuLabelOf(raw: string, removed: string)
    requires raw != "" && RemoveAll(raw, "SKU:") == removed && IsStripped(removed)
    ensures StripSkuLabel(raw) == removed
  {
    StripStripped(removed);
  }
}
