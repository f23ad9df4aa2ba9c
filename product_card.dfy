/** The product card: the link to the product page, the title and subtitle,
    the one-line OEM summary, and the image that tries `.png`, `.jpg` and
    `.jpeg` under the part's `siyam_ref` before settling on a placeholder. */
module ProductCard {

  import opened Wrappers
  import Strings
  import opened PartModel
  import Cloudflare

  // ---------------------------------------------------------------------
  // Link

  /** `a || b || ""` over optional strings. */
  function FirstTruthy(a: Option<string>, b: string): string {
    if a.Some? && a.value != "" then a.value else b
  }

  /** `productUrl`: the category (the `category` prop when given, else the
      product's own) lower-cased, then the `siyam_ref`; `"#"` for a part
      without a `siyam_ref`. */
  function ProductUrl(p: Part, category: Option<string>): string {
    if p.siyam_ref != "" then
      "/products/" + Strings.Lower(FirstTruthy(category, p.category)) + "/" + p.siyam_ref
    else "#"
  }

  /** The four segments of a product path, joined with `/`. */
  lemma ProductPathJoin(c: string, ref: string)
    ensures Strings.Join(["", "products", c, ref], "/") == "/products/" + c + "/" + ref
  {
    var parts := ["", "products", c, ref];
    assert parts[1..] == ["products", c, ref] && parts[1..][1..] == [c, ref] && parts[1..][1..][1..] == [ref];
    assert Strings.Join([c, ref], "/") == c + "/" + ref;
    assert Strings.Join(["products", c, ref], "/") == "products" + "/" + (c + "/" + ref);
  }

  /** A product path splits on `/` into its four segments. */
  lemma SplitProductPath(c: string, ref: string)
    requires '/' !in c && '/' !in ref
    ensures Strings.Split("/products/" + c + "/" + ref, "/") == ["", "products", c, ref]
  {
    var parts := ["", "products", c, ref];
    ProductPathJoin(c, ref);
    assert '/' !in "products";
    assert forall k :: 0 <= k < |parts| ==> '/' !in parts[k];
    Strings.SplitJoin(parts, '/');
  }

  /** Lower-casing never introduces a `/`. */
  lemma LowerKeepsSlashFree(s: string)
    requires '/' !in s
    ensures '/' !in Strings.Lower(s)
  {
    var c := Strings.Lower(s);
    forall k | 0 <= k < |c| ensures c[k] != '/' {
      assert c[k] == Strings.LowerChar(s[k]);
    }
  }

  /** The product page route `/products/[categoryName]/[siyam_ref]` reads
      the link back: split on `/`, it gives the lower-cased category and the
      `siyam_ref` as its two parameters (when neither contains a `/`). */
  lemma ProductUrlRoundTrip(p: Part, category: Option<string>)
    requires p.siyam_ref != ""
    requires '/' !in FirstTruthy(category, p.category) && '/' !in p.siyam_ref
    ensures Strings.Split(ProductUrl(p, category), "/")
         == ["", "products", Strings.Lower(FirstTruthy(category, p.category)), p.siyam_ref]
  {
    var c := Strings.Lower(FirstTruthy(category, p.category));
    LowerKeepsSlashFree(FirstTruthy(category, p.category));
    assert ProductUrl(p, category) == "/products/" + c + "/" + p.siyam_ref;
    SplitProductPath(c, p.siyam_ref);
  }

  /** A part without a `siyam_ref` links nowhere. */
  lemma NoRefNoLink(p: Part, category: Option<string>)
    ensures ProductUrl(p, category) == "#" <==> p.siyam_ref == ""
  {
    if p.siyam_ref != "" {
      assert ProductUrl(p, category)[0] == '/';
    }
  }

  // ---------------------------------------------------------------------
  // Title and subtitle

  /** `isAutomotive`: the product's own category mentions "automotive" in
      any letter case. */
  predicate IsAutomotive(p: Part) {
    Strings.Contains(Strings.Lower(p.category), "automotive")
  }

  /** The title line: a part with a `siyam_ref` always has a title. */
  function Title(p: Part): (t: string)
    ensures p.siyam_ref != "" ==> t != ""
  {
    if IsAutomotive(p) then p.siyam_ref
    else if p.model != "" then p.model else p.siyam_ref
  }

  /** The subtitle line; rendered only when not empty. */
  function Subtitle(p: Part): string {
    if IsAutomotive(p) then p.model else p.siyam_ref
  }

  /** The card always names the part: the `siyam_ref` is the title or the
      subtitle, and the model, when there is one, is the other. */
  lemma TitleNamesPart(p: Part)
    ensures Title(p) == p.siyam_ref || Subtitle(p) == p.siyam_ref
    ensures p.model != "" ==> {Title(p), Subtitle(p)} == {p.siyam_ref, p.model}
  {
  }

  // ---------------------------------------------------------------------
  // OEM summary

  /** How many OEM numbers the card lists before summarising the rest. */
  const SUMMARY_COUNT := 3

  /** The OEM line: the numbers listed, and how many more there are. */
  datatype OemLine = OemLine(listed: seq<string>, more: nat)

  /** `oem.slice(0, 3)` and `oem.length - 3`; no line for an empty list. */
  function OemSummary(oem: seq<string>): (r: Option<OemLine>)
    ensures r.None? <==> oem == []
    ensures r.Some? ==>
              && r.value.listed <= oem
              && |r.value.listed| == (if |oem| < SUMMARY_COUNT then |oem| else SUMMARY_COUNT)
              && |r.value.listed| + r.value.more == |oem|
              && (r.value.more > 0 <==> |oem| > SUMMARY_COUNT)
  {
    if oem == [] then None
    else if |oem| <= SUMMARY_COUNT then Some(OemLine(oem, 0))
    else Some(OemLine(oem[..SUMMARY_COUNT], |oem| - SUMMARY_COUNT))
  }

  /** The text of the line: "OEM: a, b, c +N more". */
  function OemText(line: OemLine): string {
    "OEM: " + Strings.Join(line.listed, ", ")
      + (if line.more > 0 then " +" + Strings.NatToString(line.more) + " more" else "")
  }

  /** The card's OEM line lists the first three numbers, and ends with
      " +N more" exactly when there are more than three, `N` counting the
      numbers not listed. */
  lemma OemTextOfSummary(oem: seq<string>)
    requires oem != []
    ensures var t := OemText(OemSummary(oem).value);
      && (|oem| <= SUMMARY_COUNT ==> t == "OEM: " + Strings.Join(oem, ", "))
      && (|oem| > SUMMARY_COUNT ==>
            && t[..|t| - |" +" + Strings.NatToString(|oem| - SUMMARY_COUNT) + " more"|] == "OEM: " + Strings.Join(oem[..SUMMARY_COUNT], ", ")
            && Strings.EndsWith(t, " +" + Strings.NatToString(|oem| - SUMMARY_COUNT) + " more"))
  {
    var line := OemSummary(oem).value;
    if |oem| > SUMMARY_COUNT {
      var head, tail := "OEM: " + Strings.Join(line.listed, ", "), " +" + Strings.NatToString(line.more) + " more";
      assert line.listed == oem[..SUMMARY_COUNT] && line.more == |oem| - SUMMARY_COUNT;
      assert OemText(line) == head + tail;
      Strings.EndsWithConcat(head, tail);
      assert (head + tail)[..|head + tail| - |tail|] == head;
    }
  }

  // ---------------------------------------------------------------------
  // Image fallback

  const PLACEHOLDER := "/placeholder.jpeg"

  /** The extensions tried, in order. */
  const EXTENSIONS: seq<string> := ["png", "jpg", "jpeg"]

  /** The URL tried for extension `ext`. */
  function CandidateUrl(siyamRef: string, ext: string): string {
    Cloudflare.PublicUrl(siyamRef + "." + ext)
  }

  /** The three URLs tried for a part are distinct, and none is the
      placeholder. */
  lemma CandidateUrlsDistinct(siyamRef: string)
    ensures forall i, j :: 0 <= i < j < |EXTENSIONS| ==>
              CandidateUrl(siyamRef, EXTENSIONS[i]) != CandidateUrl(siyamRef, EXTENSIONS[j])
    ensures forall i :: 0 <= i < |EXTENSIONS| ==> CandidateUrl(siyamRef, EXTENSIONS[i]) != PLACEHOLDER
  {
    forall i, j | 0 <= i < j < |EXTENSIONS|
      ensures CandidateUrl(siyamRef, EXTENSIONS[i]) != CandidateUrl(siyamRef, EXTENSIONS[j])
    {
      var a, b := siyamRef + "." + EXTENSIONS[i], siyamRef + "." + EXTENSIONS[j];
      assert a[|siyamRef| + 1..] == EXTENSIONS[i] != EXTENSIONS[j] == b[|siyamRef| + 1..];
      assert Cloudflare.PublicUrl(a) != Cloudflare.PublicUrl(b) by {
        assert Cloudflare.PublicUrl(a)[|Cloudflare.PUBLIC_BASE|..] == a;
        assert Cloudflare.PublicUrl(b)[|Cloudflare.PUBLIC_BASE|..] == b;
      }
    }
    forall i | 0 <= i < |EXTENSIONS| ensures CandidateUrl(siyamRef, EXTENSIONS[i]) != PLACEHOLDER {
      var u := CandidateUrl(siyamRef, EXTENSIONS[i]);
      assert |u| > |Cloudflare.PUBLIC_BASE| > |PLACEHOLDER|;
    }
  }

  /** The image shown for a part, given which of the three candidate URLs
      load: the first that loads, else the placeholder; the placeholder
      also for a part without a `siyam_ref`. */
  function SettledImage(siyamRef: string, loads: seq<bool>, from: nat): (url: string)
    requires |loads| == |EXTENSIONS| && from <= |EXTENSIONS|
    ensures url == PLACEHOLDER || exists k :: from <= k < |EXTENSIONS| && loads[k] && url == CandidateUrl(siyamRef, EXTENSIONS[k])
    ensures forall k :: from <= k < |EXTENSIONS| && siyamRef != "" && loads[k] && (forall j :: from <= j < k ==> !loads[j]) ==>
              url == CandidateUrl(siyamRef, EXTENSIONS[k])
    ensures siyamRef == "" || (forall k :: from <= k < |EXTENSIONS| ==> !loads[k]) ==> url == PLACEHOLDER
    decreases |EXTENSIONS| - from
  {
    if siyamRef == "" || from == |EXTENSIONS| then PLACEHOLDER
    else if loads[from] then CandidateUrl(siyamRef, EXTENSIONS[from])
    else SettledImage(siyamRef, loads, from + 1)
  }

  /** The card's image state: the URL shown, the extension being tried, and
      whether a load of that extension is in flight. */
  class CardImage {
    var siyamRef: string
    var imageUrl: string
    var extIndex: nat
    var pending: bool

    /** The URL shown is the placeholder or the URL of the current
        extension; a load is in flight only for a part with a `siyam_ref`,
        and only while the placeholder is shown. */
    ghost predicate Valid()
      reads this
    {
      && extIndex < |EXTENSIONS|
      && (imageUrl == PLACEHOLDER || imageUrl == CandidateUrl(siyamRef, EXTENSIONS[extIndex]))
      && (pending ==> siyamRef != "" && imageUrl == PLACEHOLDER)
    }

    /** First render: the placeholder, index 0, and the effect starts the
        `.png` load unless there is no `siyam_ref`. */
    constructor (siyamRef: string)
      ensures Valid()
      ensures this.siyamRef == siyamRef && imageUrl == PLACEHOLDER && extIndex == 0
      ensures pending <==> siyamRef != ""
    {
      this.siyamRef := siyamRef;
      imageUrl := PLACEHOLDER;
      extIndex := 0;
      pending := siyamRef != "";
    }

    /** `img.onload`: show the URL just loaded. */
    method OnLoad()
      requires Valid() && pending
      modifies this
      ensures Valid() && !pending
      ensures imageUrl == CandidateUrl(siyamRef, EXTENSIONS[extIndex])
      ensures siyamRef == old(siyamRef) && extIndex == old(extIndex)
    {
      imageUrl := CandidateUrl(siyamRef, EXTENSIONS[extIndex]);
      pending := false;
    }

    /** `img.onerror`: move to the next extension, whose load the effect
        then starts; after the last one, show the placeholder and stop. */
    method OnError()
      requires Valid() && pending
      modifies this
      ensures Valid() && siyamRef == old(siyamRef) && imageUrl == PLACEHOLDER
      ensures old(extIndex) + 1 < |EXTENSIONS| ==> extIndex == old(extIndex) + 1 && pending
      ensures old(extIndex) + 1 >= |EXTENSIONS| ==> extIndex == old(extIndex) && !pending
    {
      var next := extIndex + 1;
      if next < |EXTENSIONS| {
        extIndex := next;
      } else {
        imageUrl := PLACEHOLDER;
        pending := false;
      }
    }

    /** A new `siyam_ref` (the effect compares it with the one it last
        saw): back to index 0 and the placeholder, and a fresh `.png`
        attempt unless the new `siyam_ref` is empty. */
    method ChangeRef(newRef: string)
      requires Valid() && newRef != siyamRef
      modifies this
      ensures Valid()
      ensures siyamRef == newRef && imageUrl == PLACEHOLDER && extIndex == 0
      ensures pending <==> newRef != ""
    {
      siyamRef := newRef;
      extIndex := 0;
      imageUrl := PLACEHOLDER;
      pending := newRef != "";
    }

    /** Runs the callbacks until no load is in flight, `loads` telling which
        extension's URL loads. The card ends on the first loadable URL, in
        the order png, jpg, jpeg, or on the placeholder. */
    method Settle(loads: seq<bool>)
      requires Valid() && |loads| == |EXTENSIONS|
      requires extIndex == 0 && imageUrl == PLACEHOLDER && (pending <==> siyamRef != "")
      modifies this
      ensures Valid() && !pending && siyamRef == old(siyamRef)
      ensures imageUrl == SettledImage(siyamRef, loads, 0)
    {
      while pending
        invariant Valid() && siyamRef == old(siyamRef)
        invariant pending ==> forall k :: 0 <= k < extIndex ==> !loads[k]
        invariant pending ==> SettledImage(siyamRef, loads, 0) == SettledImage(siyamRef, loads, extIndex)
        invariant !pending ==> imageUrl == SettledImage(siyamRef, loads, 0)
        decreases pending, |EXTENSIONS| - extIndex
      {
        if loads[extIndex] {
          OnLoad();
        } else {
          OnError();
        }
      }
    }
  }
}
