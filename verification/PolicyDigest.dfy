/** The length-delimited encoding that policies without a file are digested by (`canonical_digest_input`). */
module PolicyDigest {
  import opened Wrappers
  import opened Text
  import opened Utf8
  import opened Decimals
  import opened Corrections

  // ----- lengths -----

  /** Little-endian bytes of a number, cut to a width. */
  function LittleEndian(n: nat, width: nat): (r: seq<Byte>)
    ensures |r| == width
  {
    if width == 0 then [] else [n % 256] + LittleEndian(n / 256, width - 1)
  }

  function FromLittleEndian(bytes: seq<Byte>): nat {
    if bytes == [] then 0 else bytes[0] + 256 * FromLittleEndian(bytes[1..])
  }

  function Capacity(width: nat): nat {
    if width == 0 then 1 else 256 * Capacity(width - 1)
  }

  lemma {:induction false} LittleEndianRoundTrip(n: nat, width: nat)
    requires n < Capacity(width)
    ensures FromLittleEndian(LittleEndian(n, width)) == n
  {
    if width > 0 {
      LittleEndianRoundTrip(n / 256, width - 1);
      assert LittleEndian(n, width)[1..] == LittleEndian(n / 256, width - 1);
    }
  }

  lemma EightBytes()
    ensures Capacity(8) == 0x1_0000_0000_0000_0000
  {
    assert Capacity(2) == 0x1_0000;
    assert Capacity(4) == 0x1_0000_0000;
    assert Capacity(6) == 0x1_0000_0000_0000;
  }

  // ----- frames -----

  /** Eight bytes of length, then the value. */
  function Frame(value: seq<Byte>): seq<Byte> {
    LittleEndian(|value|, 8) + value
  }

  function Frames(values: seq<seq<Byte>>): seq<Byte> {
    if values == [] then [] else Frame(values[0]) + Frames(values[1..])
  }

  /** Read frames back; nothing when the bytes are not frames. */
  function Unframe(bytes: seq<Byte>): Option<seq<seq<Byte>>> {
    if bytes == [] then Some([])
    else if |bytes| < 8 then None
    else
      var length := FromLittleEndian(bytes[..8]);
      if |bytes| < 8 + length then None
      else
        match Unframe(bytes[8 + length..])
        case None => None
        case Some(rest) => Some([bytes[8..8 + length]] + rest)
  }

  /** A value's length fits the eight bytes it is written in. */
  predicate Fits(value: seq<Byte>) {
    |value| < 0x1_0000_0000_0000_0000
  }

  /** Decoding what was encoded gives the values back: no two lists of values have the same encoding. */
  lemma {:induction false} UnframeFrames(values: seq<seq<Byte>>)
    requires forall i | 0 <= i < |values| :: Fits(values[i])
    ensures Unframe(Frames(values)) == Some(values)
  {
    if values != [] {
      var first, bytes := values[0], Frames(values);
      assert Fits(first);
      EightBytes();
      LittleEndianRoundTrip(|first|, 8);
      assert bytes[..8] == LittleEndian(|first|, 8);
      assert bytes[8..8 + |first|] == first;
      assert bytes[8 + |first|..] == Frames(values[1..]);
      UnframeFrames(values[1..]);
      assert [first] + values[1..] == values;
    }
  }

  lemma {:induction false} FramesAppend(a: seq<seq<Byte>>, b: seq<seq<Byte>>)
    ensures Frames(a + b) == Frames(a) + Frames(b)
  {
    hide Frame;
    if a == [] {
      assert a + b == b;
    } else {
      FramesAppend(a[1..], b);
      assert (a + b)[0] == a[0] && (a + b)[1..] == a[1..] + b;
    }
  }

  // ----- policies -----

  /** Category names and patterns in order; where one category ends is not marked. */
  function Flatten(categories: seq<CategorySpec>): seq<string> {
    if categories == [] then [] else [categories[0].name] + categories[0].patterns + Flatten(categories[1..])
  }

  /** The flat list that is encoded. */
  function Items(spec: PolicySpec): seq<string> {
    [ToDecimal(spec.schemaVersion), spec.name, spec.version] + Flatten(spec.categories)
  }

  function Bytes(items: seq<string>): seq<seq<Byte>> {
    seq(|items|, i requires 0 <= i < |items| => Encode(items[i]))
  }

  function DigestInput(spec: PolicySpec): seq<Byte> {
    Frames(Bytes(Items(spec)))
  }

  predicate Encodable(spec: PolicySpec) {
    forall i | 0 <= i < |Items(spec)| :: Fits(Encode(Items(spec)[i]))
  }

  lemma PushItem(items: seq<string>, item: string)
    ensures Frames(Bytes(items + [item])) == Frames(Bytes(items)) + Frame(Encode(item))
  {
    assert Bytes(items + [item]) == Bytes(items) + [Encode(item)];
    FramesAppend(Bytes(items), [Encode(item)]);
    assert Frames([Encode(item)]) == Frame(Encode(item)) + Frames([]);
  }

  lemma {:induction false} FlattenAppend(categories: seq<CategorySpec>, last: CategorySpec)
    ensures Flatten(categories + [last]) == Flatten(categories) + [last.name] + last.patterns
  {
    if categories == [] {
      assert Flatten([last]) == [last.name] + last.patterns + Flatten([]);
    } else {
      FlattenAppend(categories[1..], last);
      assert (categories + [last])[1..] == categories[1..] + [last];
    }
  }

  method PushCategory(category: CategorySpec, ghost before: seq<string>, out: seq<Byte>) returns (r: seq<Byte>)
    requires out == Frames(Bytes(before))
    ensures r == Frames(Bytes(before + [category.name] + category.patterns))
  {
    hide Frame, Frames, Bytes;
    PushItem(before, category.name);
    r := out + Frame(Encode(category.name));
    ghost var named := before + [category.name];
    assert named + category.patterns[..0] == named;
    for k := 0 to |category.patterns|
      invariant r == Frames(Bytes(named + category.patterns[..k]))
    {
      PushItem(named + category.patterns[..k], category.patterns[k]);
      r := r + Frame(Encode(category.patterns[k]));
      assert named + category.patterns[..k] + [category.patterns[k]] == named + category.patterns[..k + 1];
    }
    assert category.patterns[..|category.patterns|] == category.patterns;
  }

  /** `canonical_digest_input`. */
  method CanonicalDigestInput(spec: PolicySpec) returns (out: seq<Byte>)
    ensures out == DigestInput(spec)
  {
    hide Frame, Frames, Bytes, ToDecimal, Flatten;
    ghost var header := [ToDecimal(spec.schemaVersion), spec.name, spec.version];
    out := Header(spec);
    assert header + Flatten(spec.categories[..0]) == header by { NothingFlat(spec.categories); }
    for i := 0 to |spec.categories|
      invariant out == Frames(Bytes(header + Flatten(spec.categories[..i])))
    {
      FlattenAppend(spec.categories[..i], spec.categories[i]);
      assert spec.categories[..i + 1] == spec.categories[..i] + [spec.categories[i]];
      ghost var before := header + Flatten(spec.categories[..i]);
      out := PushCategory(spec.categories[i], before, out);
      assert before + [spec.categories[i].name] + spec.categories[i].patterns ==
        header + Flatten(spec.categories[..i + 1]);
    }
    assert spec.categories[..|spec.categories|] == spec.categories;
  }

  lemma NothingFlat(categories: seq<CategorySpec>)
    ensures Flatten(categories[..0]) == []
  {
  }

  method Header(spec: PolicySpec) returns (out: seq<Byte>)
    ensures out == Frames(Bytes([ToDecimal(spec.schemaVersion), spec.name, spec.version]))
  {
    var version := ToDecimal(spec.schemaVersion);
    hide Frame, Frames, Bytes, ToDecimal;
    out := [];
    assert Frames(Bytes([])) == [] by { NoFrames(); }
    PushItem([], version);
    out := out + Frame(Encode(version));
    assert [] + [version] == [version];
    PushItem([version], spec.name);
    out := out + Frame(Encode(spec.name));
    assert [version] + [spec.name] == [version, spec.name];
    PushItem([version, spec.name], spec.version);
    out := out + Frame(Encode(spec.version));
    assert [version, spec.name] + [spec.version] == [version, spec.name, spec.version];
  }

  lemma NoFrames()
    ensures Frames(Bytes([])) == []
  {
  }

  /** Two policies have the same encoding exactly when their flat lists are the same. */
  lemma SameEncodingSameItems(a: PolicySpec, b: PolicySpec)
    requires Encodable(a) && Encodable(b)
    ensures DigestInput(a) == DigestInput(b) <==> Items(a) == Items(b)
    ensures Items(a) == Items(b) <==>
              a.schemaVersion == b.schemaVersion && a.name == b.name && a.version == b.version
                && Flatten(a.categories) == Flatten(b.categories)
  {
    hide Encode, Frames, Unframe, ToDecimal, Flatten;
    UnframeFrames(Bytes(Items(a)));
    UnframeFrames(Bytes(Items(b)));
    if DigestInput(a) == DigestInput(b) {
      BytesInjective(Items(a), Items(b));
    }
    if Items(a) == Items(b) {
      assert Items(a)[0] == Items(b)[0] && Items(a)[1] == Items(b)[1] && Items(a)[2] == Items(b)[2];
      DecimalRoundTrip(a.schemaVersion);
      DecimalRoundTrip(b.schemaVersion);
      assert Items(a)[3..] == Flatten(a.categories) && Items(b)[3..] == Flatten(b.categories);
    }
  }

  lemma BytesInjective(a: seq<string>, b: seq<string>)
    requires Bytes(a) == Bytes(b)
    ensures a == b
  {
    hide Encode;
    assert |Bytes(a)| == |Bytes(b)|;
    forall i | 0 <= i < |a|
      ensures a[i] == b[i]
    {
      assert Bytes(a)[i] == Bytes(b)[i];
      EncodeInjective(a[i], b[i]);
    }
  }

  /** How many patterns each category has. */
  function Shape(categories: seq<CategorySpec>): seq<nat> {
    seq(|categories|, i requires 0 <= i < |categories| => |categories[i].patterns|)
  }

  /** Flat lists of the same shape come from the same categories. */
  lemma {:induction false} ShapedFlatten(a: seq<CategorySpec>, b: seq<CategorySpec>)
    requires Shape(a) == Shape(b) && Flatten(a) == Flatten(b)
    ensures a == b
  {
    assert |Shape(a)| == |Shape(b)|;
    if a != [] {
      assert Shape(a)[0] == Shape(b)[0];
      var n := |a[0].patterns|;
      var fa, fb := Flatten(a), Flatten(b);
      assert fa[0] == a[0].name && fb[0] == b[0].name;
      assert fa[1..1 + n] == a[0].patterns && fb[1..1 + n] == b[0].patterns;
      assert fa[1 + n..] == Flatten(a[1..]) && fb[1 + n..] == Flatten(b[1..]);
      assert Shape(a[1..]) == Shape(a)[1..] && Shape(b[1..]) == Shape(b)[1..];
      ShapedFlatten(a[1..], b[1..]);
      assert a == [a[0]] + a[1..] && b == [b[0]] + b[1..];
    }
  }

  /**
   * The encoding determines a policy up to where its categories end: policies whose categories have the same numbers of
   * patterns encode alike only when they are the same.
   */
  lemma SameShapeSamePolicy(a: PolicySpec, b: PolicySpec)
    requires Encodable(a) && Encodable(b) && Shape(a.categories) == Shape(b.categories)
    ensures DigestInput(a) == DigestInput(b) <==> a == b
  {
    hide DigestInput, Items, Flatten, Shape;
    SameEncodingSameItems(a, b);
    if DigestInput(a) == DigestInput(b) {
      ShapedFlatten(a.categories, b.categories);
    }
  }

  /** Pattern counts are not encoded: a pattern may pass for the name of a category. */
  lemma GroupingsEncodeAlike(name: string, version: string, a: string, b: string, c: string, d: string)
    ensures var one := PolicySpec(1, name, version, [CategorySpec(a, [b, c, d])]);
            var two := PolicySpec(1, name, version, [CategorySpec(a, [b]), CategorySpec(c, [d])]);
            one != two && DigestInput(one) == DigestInput(two)
  {
    var one := [CategorySpec(a, [b, c, d])];
    var two := [CategorySpec(a, [b]), CategorySpec(c, [d])];
    assert Flatten(one) == [a, b, c, d];
    assert two[1..] == [CategorySpec(c, [d])];
    assert Flatten(two[1..]) == [c, d];
    assert Flatten(two) == [a] + [b] + [c, d];
    assert Flatten(two) == [a, b, c, d];
  }

  // ----- length -----

  function Saturated(n: nat): nat {
    if n > USIZE_MAX then USIZE_MAX else n
  }

  method AddLength(bytes: nat, value: string, ghost before: seq<string>) returns (r: nat)
    requires bytes == Saturated(|Frames(Bytes(before))|)
    ensures r == Saturated(|Frames(Bytes(before + [value]))|)
  {
    hide Frames, Bytes;
    PushItem(before, value);
    r := SaturatingAdd(bytes, 8 + Utf8Len(value));
  }

  method AddCategoryLength(bytes: nat, category: CategorySpec, ghost before: seq<string>) returns (r: nat)
    requires bytes == Saturated(|Frames(Bytes(before))|)
    ensures r == Saturated(|Frames(Bytes(before + [category.name] + category.patterns))|)
  {
    hide Frames, Bytes;
    r := AddLength(bytes, category.name, before);
    ghost var named := before + [category.name];
    assert named + category.patterns[..0] == named;
    for k := 0 to |category.patterns|
      invariant r == Saturated(|Frames(Bytes(named + category.patterns[..k]))|)
    {
      r := AddLength(r, category.patterns[k], named + category.patterns[..k]);
      assert named + category.patterns[..k] + [category.patterns[k]] == named + category.patterns[..k + 1];
    }
    assert category.patterns[..|category.patterns|] == category.patterns;
  }

  /** `canonical_digest_input_len`: the length of the encoding, counted without it and saturating. */
  method CanonicalDigestInputLen(spec: PolicySpec) returns (bytes: nat)
    ensures bytes == Saturated(|DigestInput(spec)|)
  {
    var version := ToDecimal(spec.schemaVersion);
    hide Frames, Bytes, ToDecimal, Flatten;
    ghost var header := [version, spec.name, spec.version];
    assert Frames(Bytes([])) == [] by { NoFrames(); }
    bytes := AddLength(0, version, []);
    assert [] + [version] == [version];
    bytes := AddLength(bytes, spec.name, [version]);
    assert [version] + [spec.name] == [version, spec.name];
    bytes := AddLength(bytes, spec.version, [version, spec.name]);
    assert [version, spec.name] + [spec.version] == header;
    assert header + Flatten(spec.categories[..0]) == header by { NothingFlat(spec.categories); }
    for i := 0 to |spec.categories|
      invariant bytes == Saturated(|Frames(Bytes(header + Flatten(spec.categories[..i])))|)
    {
      FlattenAppend(spec.categories[..i], spec.categories[i]);
      assert spec.categories[..i + 1] == spec.categories[..i] + [spec.categories[i]];
      ghost var before := header + Flatten(spec.categories[..i]);
      bytes := AddCategoryLength(bytes, spec.categories[i], before);
      assert before + [spec.categories[i].name] + spec.categories[i].patterns ==
        header + Flatten(spec.categories[..i + 1]);
    }
    assert spec.categories[..|spec.categories|] == spec.categories;
  }

  // ----- byte order -----

  /** The least byte of a length comes first. */
  lemma LeastByteFirst(n: nat)
    requires n < 0x1_0000
    ensures LittleEndian(n, 8) == [n % 256, n / 256, 0, 0, 0, 0, 0, 0]
  {
    NoHigherBytes(6);
    assert LittleEndian(0, 6) == [0, 0, 0, 0, 0, 0];
    assert LittleEndian(n / 256, 7) == [n / 256] + LittleEndian(0, 6);
  }

  lemma {:induction false} NoHigherBytes(width: nat)
    ensures LittleEndian(0, width) == seq(width, _ => 0)
  {
    if width > 0 {
      NoHigherBytes(width - 1);
    }
  }

  // ----- layout -----

  lemma {:induction false} FlattenConcat(a: seq<CategorySpec>, b: seq<CategorySpec>)
    ensures Flatten(a + b) == Flatten(a) + Flatten(b)
  {
    if a == [] {
      assert a + b == b;
    } else {
      assert (a + b)[0] == a[0] && (a + b)[1..] == a[1..] + b;
      FlattenConcat(a[1..], b);
    }
  }

  /** The encoding holds the schema version, the name, the version, and then each category's name and its patterns. */
  lemma LayoutExact(spec: PolicySpec, category: CategorySpec, others: seq<CategorySpec>)
    requires Encodable(spec) && spec.categories == others + [category]
    ensures Unframe(DigestInput(spec)) ==
              Some(Bytes([ToDecimal(spec.schemaVersion), spec.name, spec.version]
                + Flatten(others) + ([category.name] + category.patterns)))
    ensures Flatten([]) == []
  {
    hide Frames, Unframe, Encode, ToDecimal;
    UnframeFrames(Bytes(Items(spec)));
    FlattenConcat(others, [category]);
    assert Flatten([category]) == [category.name] + category.patterns + Flatten([]);
    assert Items(spec) == [ToDecimal(spec.schemaVersion), spec.name, spec.version]
      + Flatten(others) + ([category.name] + category.patterns);
  }
}
