/** One pass over the extractor's format list: which formats become
    quality variants of the analyze response, and what each variant says. */
module Formats {
  import opened Wrappers
  import opened Text
  import Query
  import Ordering

  /** A key of a format dictionary: absent, present as JSON null (Python
      None), or present with a value. `get` treats the first two alike
      except where it is given a default. */
  datatype Field<+T> = Missing | Null | Present(value: T)

  /** One entry of the extractor's `formats` list. */
  datatype RawFormat = RawFormat(
    formatId: Field<string>,
    height: Field<nat>,
    ext: Field<string>,
    filesize: Field<nat>,
    filesizeApprox: Field<nat>)

  /** The filesize column: "Unknown", or a byte count the handler prints in megabytes. */
  datatype Size = Unknown | Megabytes(bytes: nat)

  /** One quality variant of the response. */
  datatype Variant = Variant(resolution: string, ext: string, filesize: Size, downloadUrl: string)

  /** `str(KeyError('format_id'))`, the message of the error a format without an id raises. */
  const KeyErrorMessage := "'format_id'"

  /** Python truthiness of a numeric field: present and non-zero. */
  predicate Truthy(x: Field<nat>) { x.Present? && x.value != 0 }

  /** `if not f.get('height'): continue` lets the format through. */
  predicate HasHeight(f: RawFormat) { Truthy(f.height) }

  /** `f.get('ext', 'mp4')`: the default only when the key is absent; None for a null. */
  function Ext(f: RawFormat): Option<string>
  {
    match f.ext
    case Missing => Some("mp4")
    case Null => None
    case Present(e) => Some(e)
  }

  /** The ext as the f-string prints it: "None" for a null. */
  function ExtText(f: RawFormat): string
  {
    match Ext(f)
    case None => "None"
    case Some(e) => e
  }

  /** `ext in ['mp4', 'webm']`. */
  predicate Wanted(f: RawFormat) { Ext(f) == Some("mp4") || Ext(f) == Some("webm") }

  /** A format that is listed unless an earlier one had the same key. */
  predicate Offered(f: RawFormat) { HasHeight(f) && Wanted(f) }

  /** The (height, ext) pair a variant stands for. */
  function Key(f: RawFormat): (nat, Option<string>)
  {
    (if f.height.Present? then f.height.value else 0, Ext(f))
  }

  /** `f"{resolution}p"`. */
  function Resolution(height: nat): string { Show(height) + "p" }

  /** `f"{res_str}-{ext}"`, the entry of `seen_qualities`. */
  function UniqueKey(f: RawFormat): string
    requires HasHeight(f)
  {
    Resolution(f.height.value) + "-" + ExtText(f)
  }

  /** The same key read off a variant already listed. */
  function VariantKey(v: Variant): string { v.resolution + "-" + v.ext }

  /** The string key tells offered formats apart exactly as their (height, ext) pair does. */
  lemma UniqueKeyInjective(f: RawFormat, g: RawFormat)
    requires Offered(f) && Offered(g)
    ensures UniqueKey(f) == UniqueKey(g) <==> Key(f) == Key(g)
  {
    if UniqueKey(f) == UniqueKey(g) {
      var a, b := Show(f.height.value), Show(g.height.value);
      var x, y := "p-" + ExtText(f), "p-" + ExtText(g);
      assert UniqueKey(f) == a + x && UniqueKey(g) == b + y;
      DigitsPrefix(a, x, b, y);
      ShowInjective(f.height.value, g.height.value);
      assert ExtText(f) == x[2..] && ExtText(g) == y[2..];
    }
  }

  /** `int(resolution.replace('p', ''))`, the sort key. Variants this
      handler builds always parse (`ResolutionRoundTrip`); 0 stands where
      Python would raise. */
  function HeightOf(v: Variant): nat
  {
    match Parse(RemoveChar(v.resolution, 'p'))
    case Some(n) => n
    case None => 0
  }

  /** The sort key recovers the height the resolution was printed from. */
  lemma ResolutionRoundTrip(height: nat)
    ensures Parse(RemoveChar(Resolution(height), 'p')) == Some(height)
  {
    var s := Show(height);
    assert forall i :: 0 <= i < |s| ==> s[i] != 'p';
    var r := Resolution(height);
    assert r[..|r| - 1] == s && r[|r| - 1] == 'p';
    assert RemoveChar(r, 'p') == RemoveChar(s, 'p');
    RemoveAbsent(s, 'p');
    ParseShow(height);
  }

  /** `f.get('filesize') or f.get('filesize_approx')`, then "Unknown" when that is falsy. */
  function SizeOf(f: RawFormat): (s: Size)
    ensures s == Unknown <==> !Truthy(f.filesize) && !Truthy(f.filesizeApprox)
    ensures Truthy(f.filesize) ==> s == Megabytes(f.filesize.value)
    ensures !Truthy(f.filesize) && Truthy(f.filesizeApprox) ==> s == Megabytes(f.filesizeApprox.value)
  {
    var chosen := if Truthy(f.filesize) then f.filesize else f.filesizeApprox;
    if Truthy(chosen) then Megabytes(chosen.value) else Unknown
  }

  /** `f['format_id']` as the link prints it ("None" for a null); a missing key raises instead. */
  function IdText(f: RawFormat): string
    requires !f.formatId.Missing?
  {
    if f.formatId.Null? then "None" else f.formatId.value
  }

  /** The dictionary appended for an offered format. */
  function MakeVariant(url: string, f: RawFormat): (v: Variant)
    requires Offered(f) && !f.formatId.Missing?
    ensures VariantKey(v) == UniqueKey(f)
    ensures v.ext == Ext(f).value
    ensures v.filesize == SizeOf(f)
    ensures v.downloadUrl == Query.LinkAsWritten(url, IdText(f))
  {
    Variant(Resolution(f.height.value), Ext(f).value, SizeOf(f), Query.LinkAsWritten(url, IdText(f)))
  }

  /** The variant's sort key is the format's height, its link is the one
      the handler writes, and that link reads back the analyzed url and the
      format's id unless one of them holds '&', '%', '+' or '#'. */
  lemma VariantFacts(url: string, f: RawFormat)
    requires Offered(f) && !f.formatId.Missing?
    ensures HeightOf(MakeVariant(url, f)) == f.height.value
    ensures MakeVariant(url, f).resolution == Resolution(f.height.value)
    ensures MakeVariant(url, f).downloadUrl == "/download?url=" + url + "&format_id=" + IdText(f)
    ensures Query.Plain(url) && Query.Plain(IdText(f)) ==>
      && Query.Lookup(MakeVariant(url, f).downloadUrl, "url") == Some(url)
      && Query.Lookup(MakeVariant(url, f).downloadUrl, "format_id") == Some(IdText(f))
  {
    ResolutionRoundTrip(f.height.value);
    if Query.Plain(url) && Query.Plain(IdText(f)) {
      Query.LinkAsWrittenRoundTrip(url, IdText(f));
    }
  }

  /** The keys of the variants listed so far: the `seen_qualities` set. */
  function KeySet(xs: seq<Variant>): set<string>
  {
    set v | v in xs :: VariantKey(v)
  }

  lemma KeySetAppend(xs: seq<Variant>, v: Variant)
    ensures KeySet(xs + [v]) == KeySet(xs) + {VariantKey(v)}
  {
    assert forall w :: w in xs + [v] <==> w in xs || w == v;
  }

  /** One iteration of the loop over the formats, from the variants listed so far. */
  function Step(url: string, listed: seq<Variant>, f: RawFormat): Result<seq<Variant>, string>
  {
    if !HasHeight(f) then Success(listed)
    else if f.formatId.Missing? then Failure(KeyErrorMessage)
    else if UniqueKey(f) !in KeySet(listed) && Wanted(f) then Success(listed + [MakeVariant(url, f)])
    else Success(listed)
  }

  /** The variants the loop has listed after the given formats, before sorting. */
  function Collect(url: string, raw: seq<RawFormat>): Result<seq<Variant>, string>
  {
    if raw == [] then Success([])
    else
      match Collect(url, raw[..|raw| - 1])
      case Failure(e) => Failure(e)
      case Success(listed) => Step(url, listed, raw[|raw| - 1])
  }

  /** No format that gets past the height check lacks a format_id. */
  predicate NoMissingId(raw: seq<RawFormat>)
  {
    forall i :: 0 <= i < |raw| && HasHeight(raw[i]) ==> !raw[i].formatId.Missing?
  }

  /** The loop raises exactly when some format with a height has no format_id,
      and then with the KeyError's message. */
  lemma {:induction false} CollectFails(url: string, raw: seq<RawFormat>)
    ensures Collect(url, raw).Failure? <==> !NoMissingId(raw)
    ensures Collect(url, raw).Failure? ==> Collect(url, raw).error == KeyErrorMessage
  {
    if raw != [] {
      var n := |raw| - 1;
      CollectFails(url, raw[..n]);
      assert forall i :: 0 <= i < n ==> raw[..n][i] == raw[i];
      if !NoMissingId(raw) && NoMissingId(raw[..n]) {
        assert HasHeight(raw[n]) && raw[n].formatId.Missing?;
      }
    }
  }

  /** Format i is offered and no earlier offered format has its (height, ext) pair. */
  predicate FirstOfKey(raw: seq<RawFormat>, i: int)
    requires 0 <= i < |raw|
  {
    Offered(raw[i]) && forall j :: 0 <= j < i && Offered(raw[j]) ==> Key(raw[j]) != Key(raw[i])
  }

  /** Reference definition of the listed variants, without the seen set:
      in input order, one per format that is first of its key. */
  function FirstSeen(url: string, raw: seq<RawFormat>): seq<Variant>
    requires NoMissingId(raw)
  {
    if raw == [] then []
    else
      var n := |raw| - 1;
      assert forall i :: 0 <= i < n ==> raw[..n][i] == raw[i];
      FirstSeen(url, raw[..n]) + (if FirstOfKey(raw, n) then [MakeVariant(url, raw[n])] else [])
  }

  /** The string keys of every offered format so far. */
  function OfferedKeys(raw: seq<RawFormat>): set<string>
  {
    set i | 0 <= i < |raw| && Offered(raw[i]) :: UniqueKey(raw[i])
  }

  lemma OfferedKeysAppend(raw: seq<RawFormat>)
    requires raw != []
    ensures var n := |raw| - 1;
      OfferedKeys(raw) == OfferedKeys(raw[..n]) + (if Offered(raw[n]) then {UniqueKey(raw[n])} else {})
  {
    var n := |raw| - 1;
    assert forall i :: 0 <= i < n ==> raw[..n][i] == raw[i];
  }

  /** The seen set holds the key of every offered format met so far. */
  lemma {:induction false} FirstSeenKeys(url: string, raw: seq<RawFormat>)
    requires NoMissingId(raw)
    ensures KeySet(FirstSeen(url, raw)) == OfferedKeys(raw)
  {
    if raw != [] {
      var n := |raw| - 1;
      var init := raw[..n];
      assert forall i :: 0 <= i < n ==> init[i] == raw[i];
      FirstSeenKeys(url, init);
      var prev := FirstSeen(url, init);
      if FirstOfKey(raw, n) {
        KeySetAppend(prev, MakeVariant(url, raw[n]));
      }
      if Offered(raw[n]) && !FirstOfKey(raw, n) {
        var j :| 0 <= j < n && Offered(raw[j]) && Key(raw[j]) == Key(raw[n]);
        UniqueKeyInjective(raw[j], raw[n]);
        assert UniqueKey(raw[n]) in OfferedKeys(init);
      }
      OfferedKeysAppend(raw);
    }
  }

  /** The loop, seen set and all, lists exactly the reference sequence. */
  lemma {:induction false} CollectIsFirstSeen(url: string, raw: seq<RawFormat>)
    requires NoMissingId(raw)
    ensures Collect(url, raw) == Success(FirstSeen(url, raw))
  {
    if raw != [] {
      var n := |raw| - 1;
      var init := raw[..n];
      assert forall i :: 0 <= i < n ==> init[i] == raw[i];
      CollectIsFirstSeen(url, init);
      FirstSeenKeys(url, init);
      var f := raw[n];
      var prev := FirstSeen(url, init);
      assert Collect(url, raw) == Step(url, prev, f);
      if Offered(f) {
        if UniqueKey(f) in KeySet(FirstSeen(url, init)) {
          var j :| 0 <= j < n && Offered(init[j]) && UniqueKey(init[j]) == UniqueKey(f);
          UniqueKeyInjective(raw[j], f);
          assert !FirstOfKey(raw, n);
          assert Step(url, prev, f) == Success(prev);
          assert FirstSeen(url, raw) == prev + [];
          assert prev + [] == prev;
        } else {
          forall j | 0 <= j < n && Offered(raw[j])
            ensures Key(raw[j]) != Key(f)
          {
            UniqueKeyInjective(raw[j], f);
          }
          assert FirstOfKey(raw, n);
          assert Step(url, prev, f) == Success(prev + [MakeVariant(url, f)]);
        }
      } else {
        assert !FirstOfKey(raw, n);
        assert Step(url, prev, f) == Success(prev);
        assert FirstSeen(url, raw) == prev + [];
        assert prev + [] == prev;
      }
    }
  }

  /** The (resolution, ext) pair a variant is listed under. */
  function Quality(v: Variant): (string, string) { (v.resolution, v.ext) }

  /** No two variants share a (resolution, ext) pair. */
  predicate DistinctQualities(xs: seq<Variant>)
  {
    Ordering.Distinct(xs, Quality)
  }

  /** Whether a format is first of its key depends only on the formats up to it. */
  lemma FirstOfKeyPrefix(raw: seq<RawFormat>, n: nat, i: nat)
    requires i < n <= |raw|
    ensures FirstOfKey(raw[..n], i) == FirstOfKey(raw, i)
  {
    assert forall j :: 0 <= j <= i ==> raw[..n][j] == raw[j];
  }

  lemma {:induction false} FirstSeenSound(url: string, raw: seq<RawFormat>, v: Variant)
    requires NoMissingId(raw) && v in FirstSeen(url, raw)
    ensures exists i :: 0 <= i < |raw| && FirstOfKey(raw, i) && v == MakeVariant(url, raw[i])
  {
    var n := |raw| - 1;
    var init := raw[..n];
    if v in FirstSeen(url, init) {
      FirstSeenSound(url, init, v);
      var i :| 0 <= i < n && FirstOfKey(init, i) && v == MakeVariant(url, init[i]);
      FirstOfKeyPrefix(raw, n, i);
      assert init[i] == raw[i];
    } else {
      assert FirstOfKey(raw, n) && v == MakeVariant(url, raw[n]);
    }
  }

  lemma {:induction false} FirstSeenComplete(url: string, raw: seq<RawFormat>, i: nat)
    requires NoMissingId(raw) && i < |raw| && FirstOfKey(raw, i)
    ensures MakeVariant(url, raw[i]) in FirstSeen(url, raw)
  {
    var n := |raw| - 1;
    var init := raw[..n];
    if i < n {
      FirstOfKeyPrefix(raw, n, i);
      assert init[i] == raw[i];
      FirstSeenComplete(url, init, i);
    }
  }

  /** A variant is listed exactly when it is made from a format that is first of its key. */
  lemma FirstSeenMembers(url: string, raw: seq<RawFormat>)
    requires NoMissingId(raw)
    ensures forall v :: v in FirstSeen(url, raw) <==>
      exists i :: 0 <= i < |raw| && FirstOfKey(raw, i) && v == MakeVariant(url, raw[i])
  {
    forall v ensures v in FirstSeen(url, raw) <==>
      exists i :: 0 <= i < |raw| && FirstOfKey(raw, i) && v == MakeVariant(url, raw[i])
    {
      if v in FirstSeen(url, raw) {
        FirstSeenSound(url, raw, v);
      }
      if exists i :: 0 <= i < |raw| && FirstOfKey(raw, i) && v == MakeVariant(url, raw[i]) {
        var i :| 0 <= i < |raw| && FirstOfKey(raw, i) && v == MakeVariant(url, raw[i]);
        FirstSeenComplete(url, raw, i);
      }
    }
  }

  /** The listed variants never repeat a (resolution, ext) pair. */
  lemma {:induction false} FirstSeenDistinct(url: string, raw: seq<RawFormat>)
    requires NoMissingId(raw)
    ensures DistinctQualities(FirstSeen(url, raw))
  {
    if raw != [] {
      var n := |raw| - 1;
      var init := raw[..n];
      assert forall i :: 0 <= i < n ==> init[i] == raw[i];
      FirstSeenDistinct(url, init);
      var prev := FirstSeen(url, init);
      if FirstOfKey(raw, n) {
        var v := MakeVariant(url, raw[n]);
        forall k | 0 <= k < |prev|
          ensures Quality(prev[k]) != Quality(v)
        {
          FirstSeenSound(url, init, prev[k]);
          var j :| 0 <= j < n && FirstOfKey(init, j) && prev[k] == MakeVariant(url, init[j]);
          UniqueKeyInjective(raw[j], raw[n]);
          assert VariantKey(prev[k]) != VariantKey(v);
        }
        Ordering.DistinctAppend(prev, v, Quality);
      }
    }
  }

  /** Every offered format has a first format of its key at or before it. */
  lemma {:induction false} FirstOfKeyExists(raw: seq<RawFormat>, i: nat)
    requires i < |raw| && Offered(raw[i])
    ensures exists j :: 0 <= j <= i && FirstOfKey(raw, j) && Key(raw[j]) == Key(raw[i])
    decreases i
  {
    if !FirstOfKey(raw, i) {
      var k :| 0 <= k < i && Offered(raw[k]) && Key(raw[k]) == Key(raw[i]);
      FirstOfKeyExists(raw, k);
    }
  }
}
