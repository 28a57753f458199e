/**
 * The small rules of the decoration pages: the colour cycle of a present, the
 * on/off toggle of an ornament and its CSS classes, the names both enums are shown
 * and parsed by, and how a lockfile's package checksums become the layers of a cake.
 */
module Festive {
  import opened Wrappers

  // ---------------------------------------------------------------------------
  // Presents
  // ---------------------------------------------------------------------------

  datatype Color = Red | Blue | Purple

  /** `Present::next_color`: red, then blue, then purple, then red again. */
  function NextColor(c: Color): Color
  {
    match c
    case Red => Blue
    case Blue => Purple
    case Purple => Red
  }

  /** The cycle has length three: no colour is its own successor, and three steps come back. */
  lemma NextColorCycle(c: Color)
    ensures NextColor(c) != c
    ensures NextColor(NextColor(c)) != c
    ensures NextColor(NextColor(NextColor(c))) == c
  {
  }

  /** `Display` for `Color`: the lower-case variant name. */
  function ColorName(c: Color): string
  {
    match c
    case Red => "red"
    case Blue => "blue"
    case Purple => "purple"
  }

  /** The path deserializer for `Color` (`rename_all = "lowercase"`): exactly the lower-case names. */
  function ParseColor(s: string): Option<Color>
  {
    if s == "red" then Some(Red)
    else if s == "blue" then Some(Blue)
    else if s == "purple" then Some(Purple)
    else None
  }

  /** The displayed name is the one token the deserializer reads back as that colour. */
  lemma ColorNameParses(c: Color, s: string)
    ensures ParseColor(ColorName(c)) == Some(c)
    ensures ParseColor(s) == Some(c) ==> s == ColorName(c)
  {
  }

  // ---------------------------------------------------------------------------
  // Ornaments
  // ---------------------------------------------------------------------------

  datatype State = On | Off

  /** `Ornament::next_state`: a click turns the ornament on if it was off, and off if it was on. */
  function NextState(s: State): State
  {
    match s
    case On => Off
    case Off => On
  }

  lemma NextStateInvolution(s: State)
    ensures NextState(s) != s
    ensures NextState(NextState(s)) == s
  {
  }

  /** `Ornament::classes`: the CSS classes of the ornament element. */
  function Classes(s: State): string
  {
    match s
    case On => "ornament on"
    case Off => "ornament"
  }

  /** The `on` class is present exactly when the ornament is on. */
  lemma ClassesOnlyWhenOn(s: State)
    ensures Classes(s) == "ornament on" <==> s == On
    ensures Classes(s) == "ornament" <==> s == Off
  {
  }

  /** `Display` for `State`: the lower-case variant name. */
  function StateName(s: State): string
  {
    match s
    case On => "on"
    case Off => "off"
  }

  /** The path deserializer for `State`: exactly the lower-case names. */
  function ParseState(t: string): Option<State>
  {
    if t == "on" then Some(On)
    else if t == "off" then Some(Off)
    else None
  }

  lemma StateNameParses(s: State, t: string)
    ensures ParseState(StateName(s)) == Some(s)
    ensures ParseState(t) == Some(s) ==> t == StateName(s)
  {
  }

  // ---------------------------------------------------------------------------
  // Hexadecimal (base16, section 8 of RFC 4648)
  // ---------------------------------------------------------------------------

  type Byte = x: int | 0 <= x < 256

  /** The value of one hexadecimal digit; both cases are accepted. */
  function HexDigit(ch: char): (r: Option<nat>)
    ensures r.Some? ==> r.value < 16
  {
    if '0' <= ch <= '9' then Some(ch as int - '0' as int)
    else if 'a' <= ch <= 'f' then Some(ch as int - 'a' as int + 10)
    else if 'A' <= ch <= 'F' then Some(ch as int - 'A' as int + 10)
    else None
  }

  /** The lower-case digit for a value below 16. */
  function LowerHexDigit(d: nat): (ch: char)
    requires d < 16
    ensures HexDigit(ch) == Some(d)
  {
    if d < 10 then ('0' as int + d) as char else ('a' as int + d - 10) as char
  }

  predicate IsLowerHexDigit(ch: char) {
    '0' <= ch <= '9' || 'a' <= ch <= 'f'
  }

  /** `{:02x}`: two lower-case digits, the high one first, zero-padded. */
  function Hex2(b: Byte): (t: string)
    ensures |t| == 2 && IsLowerHexDigit(t[0]) && IsLowerHexDigit(t[1])
  {
    [LowerHexDigit(b / 16), LowerHexDigit(b % 16)]
  }

  /** The `{:02x}` forms of a byte sequence, one after the other. */
  function HexLower(bytes: seq<Byte>): (t: string)
    ensures |t| == 2 * |bytes|
  {
    if bytes == [] then [] else Hex2(bytes[0]) + HexLower(bytes[1..])
  }

  /** The bytes spelled by pairs of hexadecimal digits, or `None` at the first non-digit. */
  function DecodePairs(s: string): Option<seq<Byte>>
    requires |s| % 2 == 0
  {
    if s == [] then Some([])
    else
      match (HexDigit(s[0]), HexDigit(s[1]), DecodePairs(s[2..]))
      case (Some(high), Some(low), Some(rest)) => Some([16 * high + low] + rest)
      case _ => None
  }

  /** `hex::decode`: an odd number of characters, or any character that is not a hexadecimal digit, is an error. */
  function HexDecode(s: string): (r: Option<seq<Byte>>)
  {
    if |s| % 2 != 0 then None else DecodePairs(s)
  }

  /** Decoding reads back what the lower-case encoding wrote. */
  lemma {:induction false} HexDecodeLower(bytes: seq<Byte>)
    ensures HexDecode(HexLower(bytes)) == Some(bytes)
  {
    if bytes != [] {
      var t := HexLower(bytes);
      assert t[..2] == Hex2(bytes[0]) && t[2..] == HexLower(bytes[1..]);
      HexDecodeLower(bytes[1..]);
      assert 16 * (bytes[0] / 16) + bytes[0] % 16 == bytes[0];
      assert [bytes[0]] + bytes[1..] == bytes;
    }
  }

  /** A decoded byte string is half as long as its text, and only a well-formed text decodes. */
  lemma {:induction false} HexDecodeLength(s: string)
    ensures HexDecode(s).Some? ==> 2 * |HexDecode(s).value| == |s|
    ensures HexDecode(s).Some? ==> forall i :: 0 <= i < |s| ==> HexDigit(s[i]).Some?
    decreases |s|
  {
    if |s| % 2 == 0 && s != [] && HexDecode(s).Some? {
      HexDecodeLength(s[2..]);
      assert forall i :: 2 <= i < |s| ==> s[i] == s[2..][i - 2];
    }
  }

  // ---------------------------------------------------------------------------
  // Cake layers from a lockfile
  // ---------------------------------------------------------------------------

  /** One `[[package]]` of the lockfile; only its optional checksum matters here. */
  datatype Package = Package(checksum: Option<string>)

  /** One layer of the cake: a colour, and two offsets. */
  datatype Layer = Layer(color: string, top: Byte, left: Byte)

  /** The HTTP status of a bad checksum: 422 Unprocessable Entity. */
  const UnprocessableEntity: nat := 422

  /**
   * The layer of a decoded checksum: `#` and bytes 0 to 2 as a lower-case colour,
   * byte 3 as `top`, byte 4 as `left`.
   */
  function LayerOfBytes(bytes: seq<Byte>): (layer: Layer)
    requires |bytes| >= 5
    ensures |layer.color| == 7 && layer.color[0] == '#'
    ensures forall i :: 1 <= i < 7 ==> IsLowerHexDigit(layer.color[i])
    ensures HexDecode(layer.color[1..]) == Some(bytes[..3])
    ensures layer.top == bytes[3] && layer.left == bytes[4]
  {
    var color := "#" + Hex2(bytes[0]) + Hex2(bytes[1]) + Hex2(bytes[2]);
    assert color[1..] == HexLower(bytes[..3]) by {
      var b3 := bytes[..3];
      assert b3[1..][1..][1..] == [];
      assert HexLower(b3[1..][1..]) == Hex2(bytes[2]);
      assert HexLower(b3[1..]) == Hex2(bytes[1]) + Hex2(bytes[2]);
      assert HexLower(b3) == Hex2(bytes[0]) + Hex2(bytes[1]) + Hex2(bytes[2]);
    }
    HexDecodeLower(bytes[..3]);
    Layer(color, bytes[3], bytes[4])
  }

  /** Bytes past the fifth do not change the layer. */
  lemma LayerIgnoresTail(bytes: seq<Byte>)
    requires |bytes| >= 5
    ensures LayerOfBytes(bytes) == LayerOfBytes(bytes[..5])
  {
  }

  /**
   * The `filter_map` closure of `lockfile`: nothing for a package without a
   * checksum; 422 when the checksum does not decode or decodes to fewer than five
   * bytes; the layer otherwise.
   */
  function PackageLayer(package: Package): Option<Result<Layer, nat>>
  {
    match package.checksum
    case None => None
    case Some(checksum) =>
      match HexDecode(checksum)
      case None => Some(Failure(UnprocessableEntity))
      case Some(bytes) =>
        if |bytes| < 5 then Some(Failure(UnprocessableEntity))
        else Some(Success(LayerOfBytes(bytes)))
  }

  /** The checksums of the packages that have one, in package order. */
  function Checksums(packages: seq<Package>): (sums: seq<string>)
    ensures |sums| <= |packages|
  {
    if packages == [] then []
    else
      match packages[0].checksum
      case None => Checksums(packages[1..])
      case Some(s) => [s] + Checksums(packages[1..])
  }

  /**
   * The checksums keep package order and skip exactly the packages without one: a
   * lone package contributes its checksum or nothing, and the checksums of two runs
   * of packages are those of the first followed by those of the second.
   */
  lemma {:induction false} ChecksumsInOrder(first: seq<Package>, second: seq<Package>)
    ensures |first| == 1 ==>
      Checksums(first) == (if first[0].checksum.Some? then [first[0].checksum.value] else [])
    ensures Checksums(first + second) == Checksums(first) + Checksums(second)
  {
    if first != [] {
      assert (first + second)[0] == first[0];
      assert (first + second)[1..] == first[1..] + second;
      ChecksumsInOrder(first[1..], second);
    } else {
      assert first + second == second;
    }
  }

  /** Every package yields a checksum exactly when none of them lacks one. */
  lemma {:induction false} ChecksumsAllPresent(packages: seq<Package>)
    ensures |Checksums(packages)| == |packages| <==> forall i :: 0 <= i < |packages| ==> packages[i].checksum.Some?
  {
    if packages != [] {
      ChecksumsAllPresent(packages[1..]);
      assert forall i :: 1 <= i < |packages| ==> packages[i] == packages[1..][i - 1];
    }
  }

  /** A checksum the cake accepts: it decodes, to at least five bytes. */
  predicate GoodChecksum(s: string) {
    HexDecode(s).Some? && |HexDecode(s).value| >= 5
  }

  /**
   * The layers of `lockfile` (`filter_map` then `collect::<Result<Vec<_>, _>>`): the
   * first failure among the packages' results, or the list of their layers.
   */
  function Layers(packages: seq<Package>): Result<seq<Layer>, nat>
  {
    if packages == [] then Success([])
    else
      var rest := Layers(packages[1..]);
      match PackageLayer(packages[0])
      case None => rest
      case Some(Failure(e)) => Failure(e)
      case Some(Success(layer)) =>
        match rest
        case Failure(e) => Failure(e)
        case Success(layers) => Success([layer] + layers)
  }

  /** A lockfile is accepted exactly when every checksum it has is good; a refusal is always 422. */
  lemma {:induction false} LayersSucceed(packages: seq<Package>)
    ensures Layers(packages).Success? <==>
      forall i :: 0 <= i < |Checksums(packages)| ==> GoodChecksum(Checksums(packages)[i])
    ensures Layers(packages).Failure? ==> Layers(packages).error == UnprocessableEntity
  {
    if packages != [] {
      LayersSucceed(packages[1..]);
      assert Layers(packages[1..]).Success? ==> forall i :: 0 <= i < |Checksums(packages[1..])| ==> GoodChecksum(Checksums(packages[1..])[i]);
      var rest := Layers(packages[1..]);
      var sums := Checksums(packages[1..]);
      match packages[0].checksum
      case None =>
        assert Checksums(packages) == sums;
        assert PackageLayer(packages[0]).None?;
        assert Layers(packages) == rest;
      case Some(c) =>
        var all := Checksums(packages);
        assert all == [c] + sums;
        assert forall j :: 0 <= j < |sums| ==> all[j + 1] == sums[j];
        if GoodChecksum(c) {
          assert Layers(packages).Success? == rest.Success?;
          assert Layers(packages).Failure? ==> Layers(packages) == rest;
        } else {
          assert Layers(packages) == Failure(UnprocessableEntity);
          assert !GoodChecksum(all[0]);
        }
    }
  }

  /** An accepted lockfile has one layer per checksum, in package order, each the layer of its decoded bytes. */
  lemma {:induction false} LayersValues(packages: seq<Package>)
    ensures Layers(packages).Success? ==>
      && (forall i :: 0 <= i < |Checksums(packages)| ==> GoodChecksum(Checksums(packages)[i]))
      && |Layers(packages).value| == |Checksums(packages)|
      && forall i :: 0 <= i < |Checksums(packages)| ==>
           Layers(packages).value[i] == LayerOfBytes(HexDecode(Checksums(packages)[i]).value)
  {
    LayersSucceed(packages);
    if packages != [] && Layers(packages).Success? {
      LayersValues(packages[1..]);
      LayersSucceed(packages[1..]);
      var rest := Layers(packages[1..]);
      var sums := Checksums(packages[1..]);
      match packages[0].checksum
      case None =>
        assert Checksums(packages) == sums;
        assert Layers(packages) == rest;
      case Some(c) =>
        var all := Checksums(packages);
        assert all == [c] + sums;
        assert forall j :: 0 <= j < |sums| ==> all[j + 1] == sums[j];
        assert GoodChecksum(all[0]) && rest.Success?;
        var layer := LayerOfBytes(HexDecode(c).value);
        assert PackageLayer(packages[0]) == Some(Success(layer));
        var layers := [layer] + rest.value;
        assert Layers(packages) == Success(layers);
        forall i | 0 <= i < |all|
          ensures layers[i] == LayerOfBytes(HexDecode(all[i]).value)
        {
          if i > 0 {
            assert layers[i] == rest.value[i - 1] && all[i] == sums[i - 1];
          }
        }
    }
  }

  /**
   * A lockfile yields one layer per package that has a checksum, in package order,
   * when every such checksum is good; otherwise it is refused with 422 and no
   * layers at all. Packages without a checksum contribute nothing.
   */
  lemma LayersSpec(packages: seq<Package>)
    ensures Layers(packages).Success? <==>
      forall i :: 0 <= i < |Checksums(packages)| ==> GoodChecksum(Checksums(packages)[i])
    ensures Layers(packages).Failure? ==> Layers(packages).error == UnprocessableEntity
    ensures Layers(packages).Success? ==>
      && |Layers(packages).value| == |Checksums(packages)|
      && forall i :: 0 <= i < |Checksums(packages)| ==>
           Layers(packages).value[i] == LayerOfBytes(HexDecode(Checksums(packages)[i]).value)
  {
    LayersSucceed(packages);
    LayersValues(packages);
  }
}
