/**
 * Encoder parameter lists for the three page roles of a multi-page TIFF write
 * (first page, any further page, page-less finalisation), and the three
 * built-in profiles, which the library builds lazily and caches.
 */
module EncodingFormats {
  import opened Wrappers

  /** The members of EncoderValue that the library passes to GDI+. */
  datatype EncoderValue = MultiFrame | FrameDimensionPage | Flush | LastFrame | CompressionLZW | CompressionCCITT4

  /** An EncoderParameter: its encoder category with the value it carries. */
  datatype EncoderParameter =
    | SaveFlag(flag: EncoderValue)
    | Compression(scheme: EncoderValue)
    | ColorDepth(bits: int)

  const MultiFrameParam := SaveFlag(MultiFrame)
  const FrameDimensionPageParam := SaveFlag(FrameDimensionPage)
  const FlushParam := SaveFlag(Flush)
  const LastFrameParam := SaveFlag(LastFrame)
  const Bpp24 := ColorDepth(24)
  /** Declared with colour depth 8 under the name Bpp1, and used by no profile. */
  const Bpp1 := ColorDepth(8)

  /** The contents of a filled TiffEncodingFormat, role by role. */
  datatype Profile = Profile(firstPage: seq<EncoderParameter>, xPage: seq<EncoderParameter>, lastPage: seq<EncoderParameter>)

  /** The layout shared by the built-in profiles around their distinguishing parameter. */
  function BuiltInProfile(x: EncoderParameter): Profile
  {
    Profile([MultiFrameParam, x], [FrameDimensionPageParam, x], [FlushParam, LastFrameParam, x])
  }

  const Tiff1BppProfile := BuiltInProfile(Compression(CompressionCCITT4))
  const Tiff24BppProfile := BuiltInProfile(Bpp24)
  const TiffRegularProfile := BuiltInProfile(Compression(CompressionLZW))

  /** An EncoderParameters object: a fixed-capacity array of parameter slots, null until set. */
  class EncoderParameters {
    var Param: array<Option<EncoderParameter>>

    constructor (count: nat)
      ensures fresh(Param) && Param.Length == count
      ensures forall i :: 0 <= i < count ==> Param[i] == None
    {
      Param := new Option<EncoderParameter>[count](_ => None);
    }
  }

  class TiffEncodingFormat {
    var FirstPage: EncoderParameters
    var XPage: EncoderParameters
    var LastPage: EncoderParameters
    ghost var Repr: set<object>

    ghost predicate Valid()
      reads this, Repr
    {
      && this in Repr
      && FirstPage in Repr && XPage in Repr && LastPage in Repr
      && FirstPage.Param in Repr && XPage.Param in Repr && LastPage.Param in Repr
      && FirstPage.Param != XPage.Param && XPage.Param != LastPage.Param && FirstPage.Param != LastPage.Param
    }

    /** The capacities of the three parameter lists. */
    function Capacities(): (int, int, int)
      reads this, Repr
      requires Valid()
    {
      (FirstPage.Param.Length, XPage.Param.Length, LastPage.Param.Length)
    }

    /** No slot has been set yet. */
    ghost predicate Unset()
      reads this, Repr
      requires Valid()
    {
      && (forall i :: 0 <= i < FirstPage.Param.Length ==> FirstPage.Param[i] == None)
      && (forall i :: 0 <= i < XPage.Param.Length ==> XPage.Param[i] == None)
      && (forall i :: 0 <= i < LastPage.Param.Length ==> LastPage.Param[i] == None)
    }

    /** Every slot is set, and the three lists hold exactly `p`. */
    ghost predicate Holds(p: Profile)
      reads this, Repr
      requires Valid()
    {
      && Filled(FirstPage.Param[..], p.firstPage)
      && Filled(XPage.Param[..], p.xPage)
      && Filled(LastPage.Param[..], p.lastPage)
    }

    /** TiffEncodingFormat(paramsPerEncoder): three lists of the same capacity. */
    constructor Uniform(paramsPerEncoder: nat)
      ensures Valid() && fresh(Repr)
      ensures Capacities() == (paramsPerEncoder, paramsPerEncoder, paramsPerEncoder)
      ensures Unset()
    {
      FirstPage := new EncoderParameters(paramsPerEncoder);
      XPage := new EncoderParameters(paramsPerEncoder);
      LastPage := new EncoderParameters(paramsPerEncoder);
      new;
      Repr := {this, FirstPage, XPage, LastPage, FirstPage.Param, XPage.Param, LastPage.Param};
    }

    /** TiffEncodingFormat(firstPageParamsNum, xPageParamsNum, lastPageParamsNum). */
    constructor (firstPageParamsNum: nat, xPageParamsNum: nat, lastPageParamsNum: nat)
      ensures Valid() && fresh(Repr)
      ensures Capacities() == (firstPageParamsNum, xPageParamsNum, lastPageParamsNum)
      ensures Unset()
    {
      FirstPage := new EncoderParameters(firstPageParamsNum);
      XPage := new EncoderParameters(xPageParamsNum);
      LastPage := new EncoderParameters(lastPageParamsNum);
      new;
      Repr := {this, FirstPage, XPage, LastPage, FirstPage.Param, XPage.Param, LastPage.Param};
    }
  }

  /** The slots hold exactly the parameters `ps`, none left null. */
  ghost predicate Filled(slots: seq<Option<EncoderParameter>>, ps: seq<EncoderParameter>)
  {
    |slots| == |ps| && forall i :: 0 <= i < |ps| ==> slots[i] == Some(ps[i])
  }

  /**
   * Allocates a (2, 2, 3) format and fills its slots with the built-in layout
   * around `x`, as each of the three getters does inline.
   */
  method BuildBuiltIn(x: EncoderParameter) returns (t: TiffEncodingFormat)
    ensures fresh(t.Repr) && t.Valid()
    ensures t.Capacities() == (2, 2, 3)
    ensures t.Holds(BuiltInProfile(x))
  {
    t := new TiffEncodingFormat(2, 2, 3);

    t.FirstPage.Param[0] := Some(MultiFrameParam);
    t.FirstPage.Param[1] := Some(x);

    t.XPage.Param[0] := Some(FrameDimensionPageParam);
    t.XPage.Param[1] := Some(x);

    t.LastPage.Param[0] := Some(FlushParam);
    t.LastPage.Param[1] := Some(LastFrameParam);
    t.LastPage.Param[2] := Some(x);
  }

  /** The static cache of TiffEncodingFormats: each profile is built on first request. */
  class TiffEncodingFormats {
    var tiff1Bpp: TiffEncodingFormat?
    var tiff24Bpp: TiffEncodingFormat?
    var tiffRegular: TiffEncodingFormat?
    ghost var Repr: set<object>

    ghost predicate Cached(f: TiffEncodingFormat?, p: Profile)
      reads this, Repr
    {
      f != null ==> f in Repr && f.Repr <= Repr && this !in f.Repr && f.Valid() && f.Holds(p)
    }

    ghost predicate Valid()
      reads this, Repr
    {
      && this in Repr
      && Cached(tiff1Bpp, Tiff1BppProfile)
      && Cached(tiff24Bpp, Tiff24BppProfile)
      && Cached(tiffRegular, TiffRegularProfile)
    }

    constructor ()
      ensures Valid() && fresh(Repr)
      ensures tiff1Bpp == null && tiff24Bpp == null && tiffRegular == null
    {
      tiff1Bpp, tiff24Bpp, tiffRegular := null, null, null;
      Repr := {this};
    }

    /** Black and white profile: CCITT4 compression on every role. */
    method Tiff1Bpp() returns (f: TiffEncodingFormat)
      requires Valid()
      modifies this
      ensures Valid() && fresh(Repr - old(Repr))
      ensures f == tiff1Bpp && Cached(f, Tiff1BppProfile) && f.Capacities() == (2, 2, 3)
      ensures old(tiff1Bpp) != null ==> f == old(tiff1Bpp) && Repr == old(Repr)
      ensures tiff24Bpp == old(tiff24Bpp) && tiffRegular == old(tiffRegular)
    {
      if tiff1Bpp == null {
        var t := BuildBuiltIn(Compression(CompressionCCITT4));
        tiff1Bpp := t;
        Repr := Repr + t.Repr;
      }
      f := tiff1Bpp;
      assert f.Holds(Tiff1BppProfile);
      assert f.Capacities() == (2, 2, 3) by { assert f.Holds(Tiff1BppProfile); }
    }

    /** Colour profile: colour depth 24 on every role. */
    method Tiff24Bpp() returns (f: TiffEncodingFormat)
      requires Valid()
      modifies this
      ensures Valid() && fresh(Repr - old(Repr))
      ensures f == tiff24Bpp && Cached(f, Tiff24BppProfile) && f.Capacities() == (2, 2, 3)
      ensures old(tiff24Bpp) != null ==> f == old(tiff24Bpp) && Repr == old(Repr)
      ensures tiff1Bpp == old(tiff1Bpp) && tiffRegular == old(tiffRegular)
    {
      if tiff24Bpp == null {
        var t := BuildBuiltIn(Bpp24);
        tiff24Bpp := t;
        Repr := Repr + t.Repr;
      }
      f := tiff24Bpp;
      assert f.Capacities() == (2, 2, 3) by { assert f.Holds(Tiff24BppProfile); }
    }

    /**
     * Default profile: LZW compression on every role. (The source fills most
     * slots through the property rather than the field; the property returns
     * the object just stored, so the effect is the same.)
     */
    method TiffRegular() returns (f: TiffEncodingFormat)
      requires Valid()
      modifies this
      ensures Valid() && fresh(Repr - old(Repr))
      ensures f == tiffRegular && Cached(f, TiffRegularProfile) && f.Capacities() == (2, 2, 3)
      ensures old(tiffRegular) != null ==> f == old(tiffRegular) && Repr == old(Repr)
      ensures tiff1Bpp == old(tiff1Bpp) && tiff24Bpp == old(tiff24Bpp)
    {
      if tiffRegular == null {
        var t := BuildBuiltIn(Compression(CompressionLZW));
        tiffRegular := t;
        Repr := Repr + t.Repr;
      }
      f := tiffRegular;
      assert f.Capacities() == (2, 2, 3) by { assert f.Holds(TiffRegularProfile); }
    }
  }
}
