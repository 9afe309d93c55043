/** ShapeFile: the feature-type specification strings handed to GeoTools' DataUtilities,
    the attribute names of a schema, and the buffered copying of features into a store. */
module ShapeFile {
  import opened Wrappers

  // ---------------------------------------------------------------------------
  // Text helpers

  /** The position of the first character of `s` in `stops`, or |s| when there is none. */
  function Until(s: string, stops: set<char>): (n: nat)
    ensures n <= |s|
    ensures forall i :: 0 <= i < n ==> s[i] !in stops
    ensures n < |s| ==> s[n] in stops
  {
    if |s| == 0 || s[0] in stops then 0 else 1 + Until(s[1..], stops)
  }

  /** A prefix free of stop characters is skipped whole when a stop character or the end
      follows it. */
  lemma {:induction false} UntilAfter(a: string, b: string, stops: set<char>)
    requires forall i :: 0 <= i < |a| ==> a[i] !in stops
    requires |b| == 0 || b[0] in stops
    ensures Until(a + b, stops) == |a|
  {
    if |a| > 0 {
      assert (a + b)[1..] == a[1..] + b;
      UntilAfter(a[1..], b, stops);
    } else {
      assert a + b == b;
    }
  }

  function DigitChar(d: int): (c: char)
    requires 0 <= d < 10
    ensures '0' <= c <= '9'
  {
    ('0' as int + d) as char
  }

  /** Integer.toString of a non-negative number. */
  function Decimal(n: nat): (s: string)
    ensures |s| > 0
    ensures forall i :: 0 <= i < |s| ==> '0' <= s[i] <= '9'
  {
    if n < 10 then [DigitChar(n)] else Decimal(n / 10) + [DigitChar(n % 10)]
  }

  /** The value of a string of decimal digits. */
  function ParseDecimal(s: string): nat
    requires forall i :: 0 <= i < |s| ==> '0' <= s[i] <= '9'
  {
    if |s| == 0 then 0 else ParseDecimal(s[..|s| - 1]) * 10 + (s[|s| - 1] as int - '0' as int)
  }

  /** Printing a number and reading it back gives the number. */
  lemma {:induction false} DecimalRoundTrip(n: nat)
    ensures ParseDecimal(Decimal(n)) == n
  {
    if n >= 10 {
      var s := Decimal(n);
      assert s[..|s| - 1] == Decimal(n / 10);
      DecimalRoundTrip(n / 10);
    }
  }

  // ---------------------------------------------------------------------------
  // getFeatureType

  const GeomPrefix: string := "the_geom:"
  const SridTag: string := ":srid="

  /** getFeatureType(geomType, epsgCode, String data): the specification string of a
      schema with a default geometry attribute of type `geomType`, its SRID when the EPSG
      code is positive, and the other attributes `data` when they are not null. The schema
      DataUtilities builds from it is not part of this model. */
  function FeatureTypeSpec(geomType: string, epsgCode: int, data: Option<string>): (r: string)
    ensures GeomPrefix + geomType <= r
    ensures |r| == |GeomPrefix + geomType| + (if epsgCode > 0 then |SridTag + Decimal(epsgCode)| else 0)
                   + (if data.Some? then 1 + |data.value| else 0)
  {
    var st := GeomPrefix + geomType;
    var st := if epsgCode > 0 then st + SridTag + Decimal(epsgCode) else st;
    if data.Some? then st + "," + data.value else st
  }

  /** What a specification string says: its geometry type, its SRID if any, its other
      attributes if any. */
  datatype SpecParts = SpecParts(geomType: string, srid: Option<nat>, data: Option<string>)

  /** Reads a specification string back (`None` for a string that is not one): the
      geometry type runs to the first ':' or ',', and the rest is read by `ParseTail`. */
  function ParseSpec(s: string): Option<SpecParts> {
    if !(GeomPrefix <= s) then None
    else
      var rest := s[|GeomPrefix|..];
      var g := Until(rest, {':', ','});
      var tail := ParseTail(rest[g..]);
      if tail.None? then None else Some(SpecParts(rest[..g], tail.value.0, tail.value.1))
  }

  /** An optional ":srid=" and digits up to the next ',', then an optional ',' and the
      attribute list. */
  function ParseTail(after: string): Option<(Option<nat>, Option<string>)> {
    if |after| > 0 && after[0] == ':' then
      if !(SridTag <= after) then None
      else
        var digits := after[|SridTag|..];
        var k := Until(digits, {','});
        if !(forall i :: 0 <= i < k ==> '0' <= digits[i] <= '9') then None
        else Some((Some(ParseDecimal(digits[..k])), DataPart(digits[k..])))
    else Some((None, DataPart(after)))
  }

  /** The attribute list after the separating ',', if there is one. */
  function DataPart(s: string): Option<string> {
    if |s| == 0 then None else Some(s[1..])
  }

  predicate NoSeparator(s: string) {
    forall i :: 0 <= i < |s| ==> s[i] != ':' && s[i] != ','
  }

  /** The part of a specification after its geometry type. */
  function SpecTail(epsgCode: int, data: Option<string>): string {
    (if epsgCode > 0 then SridTag + Decimal(epsgCode) else "") + (if data.Some? then "," + data.value else "")
  }

  /** The specification string carries the geometry type, the SRID exactly when the EPSG
      code is positive, and the attributes exactly when they are given. */
  lemma {:induction false} FeatureTypeSpecRoundTrip(geomType: string, epsgCode: int, data: Option<string>)
    requires NoSeparator(geomType)
    ensures ParseSpec(FeatureTypeSpec(geomType, epsgCode, data)) ==
              Some(SpecParts(geomType, if epsgCode > 0 then Some(epsgCode as nat) else None, data))
  {
    var s := FeatureTypeSpec(geomType, epsgCode, data);
    var after := SpecTail(epsgCode, data);
    assert s == GeomPrefix + (geomType + after);
    var rest := s[|GeomPrefix|..];
    assert rest == geomType + after;
    assert |after| == 0 || after[0] in {':', ','};
    UntilAfter(geomType, after, {':', ','});
    assert rest[|geomType|..] == after;
    assert rest[..|geomType|] == geomType;
    SpecTailRoundTrip(epsgCode, data);
  }

  lemma SpecTailRoundTrip(epsgCode: int, data: Option<string>)
    ensures ParseTail(SpecTail(epsgCode, data)) == Some((if epsgCode > 0 then Some(epsgCode as nat) else None, data))
  {
    var tail := if data.Some? then "," + data.value else "";
    DataPartRoundTrip(data);
    if epsgCode > 0 {
      assert SpecTail(epsgCode, data) == SridTag + Decimal(epsgCode) + tail;
      SridTailRoundTrip(epsgCode, tail);
    } else {
      assert SpecTail(epsgCode, data) == tail;
    }
  }

  /** A ":srid=" part followed by nothing or by a ','-introduced part reads back as the
      number and that part. */
  lemma SridTailRoundTrip(n: nat, tail: string)
    requires |tail| == 0 || tail[0] == ','
    ensures ParseTail(SridTag + Decimal(n) + tail) == Some((Some(n), DataPart(tail)))
  {
    var dec := Decimal(n);
    var digits := dec + tail;
    var after := SridTag + digits;
    assert SridTag + dec + tail == after;
    assert after[0] == ':' && SridTag <= after;
    assert after[|SridTag|..] == digits;
    UntilAfter(dec, tail, {','});
    var k := Until(digits, {','});
    assert digits[..k] == dec;
    assert digits[k..] == tail;
    DecimalRoundTrip(n);
  }

  lemma DataPartRoundTrip(data: Option<string>)
    ensures DataPart(if data.Some? then "," + data.value else "") == data
  {
    if data.Some? {
      assert ("," + data.value)[1..] == data.value;
    }
  }

  /** The attribute list the array overload builds: "," before each element, in order. */
  function CommaPrefixed(xs: seq<string>): (r: string)
    ensures |r| == 0 <==> |xs| == 0
    ensures |xs| > 0 ==> r[0] == ','
  {
    if |xs| == 0 then "" else CommaPrefixed(xs[..|xs| - 1]) + "," + xs[|xs| - 1]
  }

  /** getFeatureType(geomType, epsgCode, String[] data): the elements joined, the leading
      comma dropped by `substring(1, length)`. That call fails for an empty or null array,
      whose joined string is empty. */
  function FeatureTypeFromArray(geomType: string, epsgCode: int, data: Option<seq<string>>): (r: Result<string>)
    ensures r.Failure? <==> data.None? || |data.value| == 0
    ensures r.Failure? ==> r.error == StringIndexOutOfBounds
    ensures r.Success? ==> r.value == FeatureTypeSpec(geomType, epsgCode, Some(Join(data.value)))
  {
    var datast := if data.Some? then CommaPrefixed(data.value) else "";
    if |datast| == 0 then Failure(StringIndexOutOfBounds)
    else
      JoinIsCommaPrefixedTail(data.value);
      Success(FeatureTypeSpec(geomType, epsgCode, Some(datast[1..])))
  }

  /** getFeatureType(geomType, epsgCode, Collection data): the collection as an array; a
      null collection fails on `toArray`. */
  function FeatureTypeFromCollection(geomType: string, epsgCode: int, data: Option<seq<string>>): (r: Result<string>)
    ensures data.None? ==> r == Failure(NullPointer)
    ensures data.Some? ==> r == FeatureTypeFromArray(geomType, epsgCode, data)
  {
    if data.None? then Failure(NullPointer) else FeatureTypeFromArray(geomType, epsgCode, data)
  }

  /** getFeatureType(geomType, epsgCode): an empty array is passed, so it always fails. */
  function FeatureTypeWithSrid(geomType: string, epsgCode: int): (r: Result<string>)
    ensures r == Failure(StringIndexOutOfBounds)
  {
    FeatureTypeFromArray(geomType, epsgCode, Some([]))
  }

  /** getFeatureType(geomType): the EPSG code -1 and an empty array, so it always fails. */
  function FeatureTypeOf(geomType: string): (r: Result<string>)
    ensures r == Failure(StringIndexOutOfBounds)
  {
    FeatureTypeWithSrid(geomType, -1)
  }

  /** The elements separated by commas, with no comma before the first. */
  function Join(xs: seq<string>): string
    requires |xs| > 0
  {
    if |xs| == 1 then xs[0] else xs[0] + "," + Join(xs[1..])
  }

  /** The loop's comma-prefixed string without its first character is the join. */
  lemma {:induction false} JoinIsCommaPrefixedTail(xs: seq<string>)
    requires |xs| > 0
    ensures CommaPrefixed(xs)[1..] == Join(xs)
  {
    if |xs| > 1 {
      var init := xs[..|xs| - 1];
      JoinIsCommaPrefixedTail(init);
      JoinSnoc(init, xs[|xs| - 1]);
      assert init + [xs[|xs| - 1]] == xs;
    }
  }

  lemma {:induction false} JoinSnoc(xs: seq<string>, x: string)
    requires |xs| > 0
    ensures Join(xs + [x]) == Join(xs) + "," + x
  {
    if |xs| == 1 {
      assert (xs + [x])[1..] == [x];
    } else {
      assert (xs + [x])[1..] == xs[1..] + [x];
      JoinSnoc(xs[1..], x);
    }
  }

  /** Splits on ',' keeping every field, which differs from String.split for trailing commas. */
  function Split(s: string): (r: seq<string>)
    ensures |r| > 0
    decreases |s|
  {
    var k := Until(s, {','});
    if k == |s| then [s] else [s[..k]] + Split(s[k + 1..])
  }

  /** Splitting the attribute list gives back the elements, when none holds a comma. */
  lemma {:induction false} SplitJoin(xs: seq<string>)
    requires |xs| > 0
    requires forall i, j :: 0 <= i < |xs| && 0 <= j < |xs[i]| ==> xs[i][j] != ','
    ensures Split(Join(xs)) == xs
  {
    var x := xs[0];
    if |xs| == 1 {
      UntilAfter(x, "", {','});
      assert x + "" == x;
    } else {
      var rest := Join(xs[1..]);
      assert Join(xs) == x + ("," + rest);
      UntilAfter(x, "," + rest, {','});
      assert Join(xs)[..|x|] == x;
      assert Join(xs)[|x| + 1..] == rest;
      SplitJoin(xs[1..]);
      assert [x] + xs[1..] == xs;
    }
  }

  // ---------------------------------------------------------------------------
  // getAttributeNames

  /** Whether a descriptor name is kept: all but the two geometry attribute names. */
  predicate IsDataAttribute(name: string) {
    name != "the_geom" && name != "GEOM"
  }

  /** getAttributeNames: the local names of the schema's descriptors, without "the_geom"
      and "GEOM", each once, in the (unspecified) order of a HashSet. */
  method AttributeNames(descriptors: seq<string>) returns (r: seq<string>)
    ensures forall n :: n in r <==> n in descriptors && IsDataAttribute(n)
    ensures forall i, j :: 0 <= i < j < |r| ==> r[i] != r[j]
  {
    var atts: set<string> := {};
    var i := 0;
    while i < |descriptors|
      invariant 0 <= i <= |descriptors|
      invariant forall n :: n in atts <==> n in descriptors[..i] && IsDataAttribute(n)
    {
      var att := descriptors[i];
      assert descriptors[..i + 1] == descriptors[..i] + [att];
      if IsDataAttribute(att) {
        atts := atts + {att};
      }
      i := i + 1;
    }
    assert descriptors[..i] == descriptors;
    r := [];
    var left := atts;
    while left != {}
      invariant left <= atts
      invariant forall n :: n in r <==> n in atts && n !in left
      invariant forall i, j :: 0 <= i < j < |r| ==> r[i] != r[j]
      decreases |left|
    {
      var n :| n in left;
      r := r + [n];
      left := left - {n};
    }
  }

  // ---------------------------------------------------------------------------
  // Buffered copying (filter, add(int, FeatureIterator))

  function Flatten<T>(bs: seq<seq<T>>): seq<T> {
    if |bs| == 0 then [] else Flatten(bs[..|bs| - 1]) + bs[|bs| - 1]
  }

  /** The effective buffer size: a buffer of size 1 or less is flushed after every feature. */
  function Effective(bufferSize: int): (b: nat)
    ensures b >= 1
    ensures bufferSize >= 1 ==> b == bufferSize
  {
    if bufferSize < 1 then 1 else bufferSize
  }

  /** `bs` cuts `xs` into batches: every batch but the last is full, the last is not. */
  ghost predicate IsChunking<T>(bs: seq<seq<T>>, xs: seq<T>, b: nat) {
    && |bs| > 0
    && Flatten(bs) == xs
    && (forall i :: 0 <= i < |bs| - 1 ==> |bs[i]| == b)
    && |bs[|bs| - 1]| < b
  }

  /** Cutting into batches of `b`, the remainder (maybe empty) last. */
  function Chunks<T>(xs: seq<T>, b: nat): seq<seq<T>>
    requires b >= 1
    decreases |xs|
  {
    if |xs| < b then [xs] else [xs[..b]] + Chunks(xs[b..], b)
  }

  lemma {:induction false} FlattenCons<T>(x: seq<T>, bs: seq<seq<T>>)
    ensures Flatten([x] + bs) == x + Flatten(bs)
    decreases |bs|
  {
    if |bs| > 0 {
      var init := bs[..|bs| - 1];
      assert ([x] + bs)[..|bs|] == [x] + init;
      FlattenCons(x, init);
    }
  }

  /** The batches a chunking consists of are determined: they are `Chunks(xs, b)`. */
  lemma {:induction false} ChunkingUnique<T>(bs: seq<seq<T>>, xs: seq<T>, b: nat)
    requires b >= 1 && IsChunking(bs, xs, b)
    ensures bs == Chunks(xs, b)
    decreases |xs|
  {
    FlattenCons(bs[0], bs[1..]);
    assert [bs[0]] + bs[1..] == bs;
    if |bs| == 1 {
      assert Flatten(bs) == bs[0];
    } else {
      var rest := bs[1..];
      assert xs == bs[0] + Flatten(rest);
      assert |bs[0]| == b;
      assert xs[..b] == bs[0];
      assert xs[b..] == Flatten(rest);
      assert IsChunking(rest, xs[b..], b) by {
        forall i | 0 <= i < |rest| - 1
          ensures |rest[i]| == b
        {
          assert rest[i] == bs[i + 1];
        }
      }
      ChunkingUnique(rest, xs[b..], b);
    }
  }

  /** The reference cut is a chunking. */
  lemma {:induction false} ChunksIsChunking<T>(xs: seq<T>, b: nat)
    requires b >= 1
    ensures IsChunking(Chunks(xs, b), xs, b)
    decreases |xs|
  {
    if |xs| >= b {
      var rest := Chunks(xs[b..], b);
      ChunksIsChunking(xs[b..], b);
      FlattenCons(xs[..b], rest);
      assert xs[..b] + xs[b..] == xs;
      var bs := Chunks(xs, b);
      forall i | 0 <= i < |bs| - 1
        ensures |bs[i]| == b
      {
        if i > 0 {
          assert bs[i] == rest[i - 1];
        }
      }
    } else {
      assert Flatten([xs]) == Flatten([xs][..0]) + xs;
    }
  }

  /** The buffer size filter uses. */
  const FilterBufferSize: int := 500

  /** The buffer size add(FeatureIterator) uses. */
  const DefaultAddBufferSize: int := 100

  /** The loop of filter and add(int, FeatureIterator): features are added to a buffer that
      is flushed, then cleared, whenever it holds `bufferSize` or more; returns the flushed
      batches and what is left in the buffer. */
  method FillAndFlush<T>(features: seq<T>, bufferSize: int) returns (flushed: seq<seq<T>>, buffer: seq<T>)
    ensures Flatten(flushed) + buffer == features
    ensures forall i :: 0 <= i < |flushed| ==> |flushed[i]| == Effective(bufferSize)
    ensures |buffer| < Effective(bufferSize)
  {
    flushed := [];
    buffer := [];
    var i := 0;
    while i < |features|
      invariant 0 <= i <= |features|
      invariant Flatten(flushed) + buffer == features[..i]
      invariant forall j :: 0 <= j < |flushed| ==> |flushed[j]| == Effective(bufferSize)
      invariant |buffer| < Effective(bufferSize)
    {
      buffer := buffer + [features[i]];
      assert features[..i + 1] == features[..i] + [features[i]];
      if |buffer| >= bufferSize {
        assert Flatten(flushed + [buffer]) == Flatten(flushed) + buffer by {
          assert (flushed + [buffer])[..|flushed|] == flushed;
        }
        flushed := flushed + [buffer];
        buffer := [];
      }
      i := i + 1;
    }
    assert features[..i] == features;
  }

  /** filter: the features read are written in batches of 500, followed by a final flush of
      what is left, which may be empty. */
  method Filter<T>(features: seq<T>) returns (batches: seq<seq<T>>)
    ensures IsChunking(batches, features, Effective(FilterBufferSize))
    ensures batches == Chunks(features, Effective(FilterBufferSize))
  {
    var flushed, buffer := FillAndFlush(features, FilterBufferSize);
    batches := flushed + [buffer];
    assert batches[..|flushed|] == flushed;
    ChunkingUnique(batches, features, Effective(FilterBufferSize));
  }

  /** add(bufferSize, iterator): the same loop, but the buffer is only created with the
      first feature, so an empty iterator writes nothing; otherwise the final flush writes
      what is left, which is empty when the count is a multiple of the buffer size. */
  method AddFromIterator<T>(bufferSize: int, features: seq<T>) returns (batches: seq<seq<T>>)
    ensures |features| == 0 ==> batches == []
    ensures |features| > 0 ==> IsChunking(batches, features, Effective(bufferSize))
    ensures |features| > 0 ==> batches == Chunks(features, Effective(bufferSize))
  {
    var flushed, buffer := FillAndFlush(features, bufferSize);
    if |features| == 0 {
      batches := [];
    } else {
      batches := flushed + [buffer];
      assert batches[..|flushed|] == flushed;
      ChunkingUnique(batches, features, Effective(bufferSize));
    }
  }

  /** add(iterator): batches of 100. */
  method AddFromIteratorDefault<T>(features: seq<T>) returns (batches: seq<seq<T>>)
    ensures |features| == 0 ==> batches == []
    ensures |features| > 0 ==> batches == Chunks(features, 100)
  {
    batches := AddFromIterator(DefaultAddBufferSize, features);
  }
}
