/**
  The browser's object-URL registry (`new Blob(...)` with `URL.createObjectURL`),
  reduced to what the preview relies on: each call hands out a locator never
  handed out before, and that locator dereferences to the content and MIME type
  it was created for.  Locators are written `blob:` followed by a serial number;
  nothing is ever revoked, as in the source.
 */
module ObjectUrls {
  import opened Wrappers
  import opened Strings

  /** A materialised resource: verbatim content tagged with a MIME type. */
  datatype Blob = Blob(content: string, mime: string)

  const Scheme: string := "blob:"

  function Locator(id: nat): (url: string)
    ensures StartsWith(url, Scheme) && |url| > |Scheme|
  {
    Scheme + Decimal(id)
  }

  /**
    The serial number a locator carries, if it is one: `blob:` followed by a
    numeral written without leading zeros, as `Locator` writes it.
   */
  function LocatorId(url: string): (r: Option<nat>)
    ensures r.Some? ==> StartsWith(url, Scheme)
  {
    if StartsWith(url, Scheme) && IsNumeral(url[|Scheme|..])
    then Some(ParseDigits(url[|Scheme|..]))
    else None
  }

  /** Only locators are read as locators: a URL with a serial number is that number's locator. */
  lemma LocatorIdOnlyLocators(url: string)
    requires LocatorId(url).Some?
    ensures url == Locator(LocatorId(url).value)
  {
    var tail := url[|Scheme|..];
    DecimalOfNumeral(tail);
    assert url == Scheme + tail;
  }

  /** A locator reads back as the serial number it was made from. */
  lemma LocatorRoundTrip(id: nat)
    ensures LocatorId(Locator(id)) == Some(id)
  {
    var url := Locator(id);
    assert url[|Scheme|..] == Decimal(id);
    assert IsNumeral(Decimal(id));
    ParseDecimal(id);
  }

  /** Distinct serial numbers give distinct locators. */
  lemma LocatorInjective(a: nat, b: nat)
    ensures Locator(a) == Locator(b) ==> a == b
  {
    LocatorRoundTrip(a);
    LocatorRoundTrip(b);
  }

  class ObjectUrlStore {
    /** Every blob registered so far, in order; the `k`-th has locator `Locator(k)`. */
    var entries: seq<Blob>

    constructor ()
      ensures entries == []
    {
      entries := [];
    }

    /** What fetching `url` yields. */
    function Deref(url: string): (r: Option<Blob>)
      reads this
      ensures r.Some? ==> r.value in entries
    {
      match LocatorId(url)
      case Some(n) => if n < |entries| then Some(entries[n]) else None
      case None => None
    }

    /** `URL.createObjectURL(new Blob([content], { type: mime }))`. */
    method CreateObjectUrl(b: Blob) returns (url: string)
      modifies this
      ensures entries == old(entries) + [b]
      ensures url == Locator(|old(entries)|)
      ensures Deref(url) == Some(b)
      ensures forall u :: old(Deref(u)).Some? ==> Deref(u) == old(Deref(u))
    {
      url := Locator(|entries|);
      entries := entries + [b];
      LocatorRoundTrip(|entries| - 1);
    }
  }
}
