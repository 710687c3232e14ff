/** The format loop of the analyze handler and what its result promises:
    the formats with a height, an mp4 or webm ext and a (height, ext) pair
    not seen before, highest first. */
module Processing {
  import opened Wrappers
  import opened Formats
  import opened Ordering
  import Query

  /** The `formats` list of the response, or the message of the error the loop raised. */
  function Listing(url: string, raw: seq<RawFormat>): Result<seq<Variant>, string>
  {
    match Collect(url, raw)
    case Failure(e) => Failure(e)
    case Success(listed) => Success(SortBy(listed, HeightOf))
  }

  /** The loop over `info['formats']` with its `seen_qualities` set, then the sort. */
  method ProcessFormats(url: string, raw: seq<RawFormat>) returns (r: Result<seq<Variant>, string>)
    ensures r == Listing(url, raw)
  {
    var formats: seq<Variant> := [];
    var seen: set<string> := {};
    for i := 0 to |raw|
      invariant Collect(url, raw[..i]) == Success(formats)
      invariant seen == KeySet(formats)
    {
      var f := raw[i];
      assert raw[..i + 1][..i] == raw[..i];
      if !HasHeight(f) {
        continue;
      }
      var resolution := Resolution(f.height.value);
      var size := SizeOf(f);
      if f.formatId.Missing? {
        CollectFails(url, raw);
        return Failure(KeyErrorMessage);
      }
      var link := Query.LinkAsWritten(url, IdText(f));
      var uniqueKey := resolution + "-" + ExtText(f);
      if uniqueKey !in seen && Wanted(f) {
        var v := Variant(resolution, Ext(f).value, size, link);
        assert v == MakeVariant(url, f);
        KeySetAppend(formats, v);
        seen := seen + {uniqueKey};
        formats := formats + [v];
      }
    }
    assert raw[..|raw|] == raw;
    formats := SortBy(formats, HeightOf);
    return Success(formats);
  }

  /** The handler fails exactly when a format with a height has no
      format_id, and then with the KeyError's message. */
  lemma ListingFails(url: string, raw: seq<RawFormat>)
    ensures Listing(url, raw).Failure? <==>
      exists i :: 0 <= i < |raw| && HasHeight(raw[i]) && raw[i].formatId.Missing?
    ensures Listing(url, raw).Failure? ==> Listing(url, raw).error == KeyErrorMessage
  {
    CollectFails(url, raw);
  }

  /** The listed variants, once sorted, are the reference sequence reordered. */
  lemma ListingIsSortedFirstSeen(url: string, raw: seq<RawFormat>)
    requires NoMissingId(raw)
    ensures Listing(url, raw) == Success(SortBy(FirstSeen(url, raw), HeightOf))
  {
    CollectIsFirstSeen(url, raw);
  }

  /** A variant is in the response exactly when it is made from a format
      that has a height and an mp4 or webm ext and comes first among such
      formats with its (height, ext) pair. */
  lemma ListingMembers(url: string, raw: seq<RawFormat>)
    requires NoMissingId(raw)
    ensures Listing(url, raw).Success?
    ensures forall v :: v in Listing(url, raw).value <==>
      exists i :: 0 <= i < |raw| && FirstOfKey(raw, i) && v == MakeVariant(url, raw[i])
  {
    ListingIsSortedFirstSeen(url, raw);
    FirstSeenMembers(url, raw);
    var out := SortBy(FirstSeen(url, raw), HeightOf);
    assert forall v :: v in out <==> v in multiset(out);
    assert forall v :: v in FirstSeen(url, raw) <==> v in multiset(FirstSeen(url, raw));
  }

  /** Every variant in the response has a non-zero height and an mp4 or
      webm ext; its resolution is that height followed by "p". */
  lemma ListingShape(url: string, raw: seq<RawFormat>)
    requires NoMissingId(raw)
    ensures Listing(url, raw).Success?
    ensures forall v :: v in Listing(url, raw).value ==>
      && HeightOf(v) > 0
      && v.resolution == Resolution(HeightOf(v))
      && (v.ext == "mp4" || v.ext == "webm")
  {
    ListingMembers(url, raw);
    forall v | v in Listing(url, raw).value
      ensures HeightOf(v) > 0 && v.resolution == Resolution(HeightOf(v)) && (v.ext == "mp4" || v.ext == "webm")
    {
      var i :| 0 <= i < |raw| && FirstOfKey(raw, i) && v == MakeVariant(url, raw[i]);
      VariantFacts(url, raw[i]);
    }
  }

  /** No two variants in the response share a (resolution, ext) pair. */
  lemma ListingDistinct(url: string, raw: seq<RawFormat>)
    requires NoMissingId(raw)
    ensures Listing(url, raw).Success?
    ensures DistinctQualities(Listing(url, raw).value)
  {
    ListingIsSortedFirstSeen(url, raw);
    FirstSeenDistinct(url, raw);
    SortDistinct(FirstSeen(url, raw), HeightOf, Quality);
  }

  /** Every format with a height and an mp4 or webm ext is represented:
      the response holds the variant of the first format with its (height,
      ext) pair. Its link is `/download?url=<url>&format_id=<id>` with that
      format's id, and reads both back when neither holds '&', '%', '+' or '#'. */
  lemma ListingComplete(url: string, raw: seq<RawFormat>, i: nat)
    requires NoMissingId(raw) && i < |raw| && Offered(raw[i])
    ensures Listing(url, raw).Success?
    ensures exists j ::
      && 0 <= j <= i && FirstOfKey(raw, j) && Key(raw[j]) == Key(raw[i])
      && MakeVariant(url, raw[j]) in Listing(url, raw).value
      && MakeVariant(url, raw[j]).downloadUrl == "/download?url=" + url + "&format_id=" + IdText(raw[j])
      && (Query.Plain(url) && Query.Plain(IdText(raw[j])) ==>
          Query.Lookup(MakeVariant(url, raw[j]).downloadUrl, "url") == Some(url)
          && Query.Lookup(MakeVariant(url, raw[j]).downloadUrl, "format_id") == Some(IdText(raw[j])))
  {
    ListingMembers(url, raw);
    FirstOfKeyExists(raw, i);
    var j :| 0 <= j <= i && FirstOfKey(raw, j) && Key(raw[j]) == Key(raw[i]);
    assert MakeVariant(url, raw[j]) in Listing(url, raw).value;
    VariantFacts(url, raw[j]);
  }

  /** Highest first, and stable: for every height, the variants of that
      height appear in the order their formats were listed. */
  lemma ListingOrder(url: string, raw: seq<RawFormat>)
    requires NoMissingId(raw)
    ensures Listing(url, raw).Success?
    ensures Descending(Listing(url, raw).value, HeightOf)
    ensures forall h :: OfKey(Listing(url, raw).value, HeightOf, h) == OfKey(FirstSeen(url, raw), HeightOf, h)
  {
    ListingIsSortedFirstSeen(url, raw);
    SortDescending(FirstSeen(url, raw), HeightOf);
    forall h ensures OfKey(Listing(url, raw).value, HeightOf, h) == OfKey(FirstSeen(url, raw), HeightOf, h) {
      SortStable(FirstSeen(url, raw), HeightOf, h);
    }
  }
}
