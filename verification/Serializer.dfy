/** Sizing and writing objects, recursing into constructed parts only. */
module Serializer {
  import opened Machine
  import opened Header
  import opened HeaderIO
  import opened Item
  import opened Raw
  import opened Compare

  /** Is there a constructed object below this one? */
  function ComputeDeep(c: CborRaw): bool {
    match c
    case CaseTagged(_, _) => true
    case CaseArray(_, ptr) => |ptr| != 0
    case CaseMap(_, ptr) => |ptr| != 0
    case _ => false
  }

  /** The header of an object. */
  function GetHeader(x: CborRaw): Header
  {
    match x
    case CaseInt(ty, size, value) => RawUint64AsArgument(ty, RawUint64(size, value))
    case CaseString(ty, size, ptr) => RawUint64AsArgument(ty, RawUint64(size, |ptr|))
    case CaseTagged(_, _) => RawUint64AsArgument(MAJOR_TAGGED, TaggedTag(x))
    case CaseSerializedTagged(_, _) => RawUint64AsArgument(MAJOR_TAGGED, TaggedTag(x))
    case CaseArray(_, _) => RawUint64AsArgument(MAJOR_ARRAY, ArrayLength(x))
    case CaseSerializedArray(_, _) => RawUint64AsArgument(MAJOR_ARRAY, ArrayLength(x))
    case CaseMap(_, _) => RawUint64AsArgument(MAJOR_MAP, MapLength(x))
    case CaseSerializedMap(_, _) => RawUint64AsArgument(MAJOR_MAP, MapLength(x))
    case CaseSimple(v) => SimpleValueAsArgument(v)
  }

  /** What an object's encoding consists of. */
  lemma EncodingParts(x: CborRaw)
    requires Valid(x)
    ensures HeadOk(AbsHead(x)) && GetHeader(x) == HeaderOf(AbsHead(x))
    ensures GetHeader(x).fst.majorType == MajorType(x)
    ensures WF(Abs(x)) && WFAll(Abs(x).children)
    ensures Enc(x) == HeadBytes(AbsHead(x)) + (Abs(x).content + SerAll(Abs(x).children))
  {
    hide ParseItems;
    ValidAbs(x);
    SerUnfold(Abs(x));
    HeaderOfFields(AbsHead(x));
  }

  /** What follows the head, case by case. */
  lemma BodyOf(x: CborRaw)
    requires Valid(x)
    ensures WF(Abs(x))
    ensures x.CaseInt? || x.CaseSimple? ==> Body(Abs(x)) == []
    ensures x.CaseString? ==> Body(Abs(x)) == x.stringPtr
    ensures x.CaseSerializedTagged? || x.CaseSerializedArray? || x.CaseSerializedMap? ==> Body(Abs(x)) == x.payload
    ensures x.CaseTagged? ==> Body(Abs(x)) == Enc(x.taggedPtr[0])
    ensures x.CaseArray? ==> ValidAll(x.arrayPtr) && |x.arrayPtr| <= USIZE_MAX && Body(Abs(x)) == EncAll(x.arrayPtr)
    ensures x.CaseMap? ==> ValidEntries(x.mapPtr) && |x.mapPtr| <= USIZE_MAX && Body(Abs(x)) == EncEntries(x.mapPtr)
  {
    hide ParseItems, Ser, WF;
    ValidAbs(x);
    match x
    case CaseSerializedTagged(_, _) => SerializedPayload(x);
    case CaseSerializedArray(_, _) => SerializedPayload(x);
    case CaseSerializedMap(_, _) => SerializedPayload(x);
    case CaseTagged(_, ptr) => ValidAbs(ptr[0]); SerSingle(Abs(ptr[0]));
    case _ =>
  }

  ghost function EncAll(xs: seq<CborRaw>): seq<byte>
    requires ValidAll(xs)
  {
    ValidAbsAll(xs);
    SerAll(AbsAll(xs))
  }

  ghost function EncEntries(es: seq<MapEntry>): seq<byte>
    requires ValidEntries(es)
  {
    ValidAbsEntries(es);
    SerAll(AbsEntries(es))
  }

  lemma EncAllStep(xs: seq<CborRaw>, i: nat)
    requires ValidAll(xs) && i < |xs|
    ensures Valid(xs[i])
    ensures EncAll(xs[i..]) == Enc(xs[i]) + EncAll(xs[i + 1..])
  {
    hide Valid, WF, Ser;
    ValidAbs(xs[i]);
    ValidAbsAll(xs[i + 1..]);
    assert xs[i..][1..] == xs[i + 1..];
    WFCons(Abs(xs[i]), AbsAll(xs[i + 1..]));
  }

  lemma EncEntriesStep(es: seq<MapEntry>, i: nat)
    requires ValidEntries(es) && i < |es|
    ensures ValidEntry(es[i])
    ensures EncEntries(es[i..]) == Enc(es[i].key) + Enc(es[i].value) + EncEntries(es[i + 1..])
  {
    hide Valid, WF, Ser;
    var k, v := Abs(es[i].key), Abs(es[i].value);
    ValidAbs(es[i].key);
    ValidAbs(es[i].value);
    ValidAbsEntries(es[i + 1..]);
    assert es[i..][1..] == es[i + 1..];
    var more := AbsEntries(es[i + 1..]);
    assert AbsEntries(es[i..]) == AbsEntry(es[i]) + more == [k] + ([v] + more);
    WFCons(v, more);
    WFCons(k, [v] + more);
  }

  /** The encodings of elements, and of keys and values, one after the other. */
  lemma EncodingsInOrder(x: CborRaw, xs: seq<CborRaw>, e: MapEntry, es: seq<MapEntry>)
    requires Valid(x) && ValidAll(xs) && ValidEntry(e) && ValidEntries(es)
    ensures ValidAll([x] + xs) && EncAll([x] + xs) == Enc(x) + EncAll(xs)
    ensures ValidEntries([e] + es) && EncEntries([e] + es) == Enc(e.key) + Enc(e.value) + EncEntries(es)
    ensures EncAll([]) == [] && EncEntries([]) == []
  {
    hide Valid, WF, Ser, Abs;
    var ys, fs := [x] + xs, [e] + es;
    assert ys[0..] == ys && ys[1..] == xs && fs[0..] == fs && fs[1..] == es;
    assert ValidEntries(fs);
    EncAllStep(ys, 0);
    EncEntriesStep(fs, 0);
    EncodingsEnd([], []);
  }

  lemma EncodingsEnd(xs: seq<CborRaw>, es: seq<MapEntry>)
    requires xs == [] && es == []
    ensures EncAll(xs) == [] && EncEntries(es) == []
  {
  }

  // ------------------------------------------------------------------
  // Size
  // ------------------------------------------------------------------

  /** Charges the size of the encoding against the budget in the cell; succeeds
      exactly when it fits. */
  method Siz(x: CborRaw, out: array<usize>) returns (res: bool)
    requires Valid(x) && out.Length == 1
    modifies out
    ensures res <==> |Enc(x)| <= old(out[0])
    ensures res ==> out[0] == old(out[0]) - |Enc(x)|
    decreases x, 1
  {
    hide Valid, WF, Ser, SerAll, AbsHead, Abs, HeaderOf, HeadOk, HeadBytes, EncAll, EncEntries, MajorType, GetHeader;
    MajorTypeCases(x);
    EncodingParts(x);
    BodyOf(x);
    var deep := ComputeDeep(x);
    var xh1 := GetHeader(x);
    res := SizeHeader(xh1, out, AbsHead(x));
    if res {
      if deep {
        if xh1.fst.majorType == MAJOR_BYTE_STRING || xh1.fst.majorType == MAJOR_TEXT_STRING {
          assert false;
        } else if xh1.fst.majorType == MAJOR_ARRAY {
          if x.CaseArray? {
            res := SizArray(x, out);
          } else {
            assert false;
          }
        } else if xh1.fst.majorType == MAJOR_MAP {
          if x.CaseMap? {
            res := SizMap(x, out);
          } else {
            assert false;
          }
        } else if xh1.fst.majorType == MAJOR_TAGGED {
          if x.CaseTagged? {
            ValidTagged(x);
            res := Siz(x.taggedPtr[0], out);
          } else {
            assert false;
          }
        } else {
          assert false;
        }
      } else if xh1.fst.majorType == MAJOR_BYTE_STRING || xh1.fst.majorType == MAJOR_TEXT_STRING {
        res := ChargeBytes(|x.stringPtr|, out);
      } else if xh1.fst.majorType == MAJOR_ARRAY {
        if x.CaseArray? {
          EncodingsEnd(x.arrayPtr, []);
        } else {
          res := ChargePayload(x, out);
        }
      } else if xh1.fst.majorType == MAJOR_MAP {
        if x.CaseMap? {
          EncodingsEnd([], x.mapPtr);
        } else {
          res := ChargePayload(x, out);
        }
      } else if xh1.fst.majorType == MAJOR_TAGGED {
        if x.CaseTagged? {
          assert false;
        } else {
          res := ChargePayload(x, out);
        }
      }
    }
  }

  lemma ValidTagged(x: CborRaw)
    requires Valid(x) && x.CaseTagged?
    ensures |x.taggedPtr| >= 1 && Valid(x.taggedPtr[0])
  {
  }

  method ChargePayload(x: CborRaw, out: array<usize>) returns (res: bool)
    requires Valid(x) && out.Length == 1
    requires x.CaseSerializedTagged? || x.CaseSerializedArray? || x.CaseSerializedMap?
    modifies out
    ensures res <==> |x.payload| <= old(out[0])
    ensures res ==> out[0] == old(out[0]) - |x.payload|
  {
    hide ParseItems;
    res := ChargeBytes(|x.payload|, out);
  }

  method SizArray(x: CborRaw, out: array<usize>) returns (res: bool)
    requires x.CaseArray? && ValidAll(x.arrayPtr) && |x.arrayPtr| <= USIZE_MAX && out.Length == 1
    modifies out
    ensures res <==> |EncAll(x.arrayPtr)| <= old(out[0])
    ensures res ==> out[0] == old(out[0]) - |EncAll(x.arrayPtr)|
    decreases x, 0
  {
    hide Valid, Abs, WF, Ser, EncAll, Enc;
    var a := x.arrayPtr;
    var len: usize := |a|;
    var i: usize := 0;
    res := true;
    assert a[0..] == a;
    while res && i < len
      invariant i <= len
      invariant res ==> out[0] - |EncAll(a[i..])| == old(out[0]) - |EncAll(a)|
      invariant !res ==> |EncAll(a)| > old(out[0])
      decreases res, len - i
    {
      EncAllStep(a, i);
      var e := a[i];
      var res0 := Siz(e, out);
      if res0 {
        i := i + 1;
      } else {
        res := false;
      }
    }
    EncodingsEnd(a[len..], []);
  }

  method SizMap(x: CborRaw, out: array<usize>) returns (res: bool)
    requires x.CaseMap? && ValidEntries(x.mapPtr) && |x.mapPtr| <= USIZE_MAX && out.Length == 1
    modifies out
    ensures res <==> |EncEntries(x.mapPtr)| <= old(out[0])
    ensures res ==> out[0] == old(out[0]) - |EncEntries(x.mapPtr)|
    decreases x, 0
  {
    hide Valid, Abs, WF, Ser, EncEntries, Enc;
    var a := x.mapPtr;
    var len: usize := |a|;
    var i: usize := 0;
    res := true;
    assert a[0..] == a;
    while res && i < len
      invariant i <= len
      invariant res ==> out[0] - |EncEntries(a[i..])| == old(out[0]) - |EncEntries(a)|
      invariant !res ==> |EncEntries(a)| > old(out[0])
      decreases res, len - i
    {
      EncEntriesStep(a, i);
      var e := a[i];
      var res0 := Siz(e.key, out);
      if res0 {
        res0 := Siz(e.value, out);
      }
      if res0 {
        i := i + 1;
      } else {
        res := false;
      }
    }
    EncodingsEnd([], a[len..]);
  }

  // ------------------------------------------------------------------
  // Writing
  // ------------------------------------------------------------------

  /** Copies a slice into the buffer. */
  method CopyFromSlice(src: seq<byte>, out: array<byte>, at: usize) returns (end: usize)
    requires at + |src| <= out.Length <= USIZE_MAX
    modifies out
    ensures end == at + |src|
    ensures out[..] == Overwrite(old(out[..]), at, src)
  {
    forall k | 0 <= k < |src| {
      out[at + k] := src[k];
    }
    end := at + |src|;
  }

  /** Writes the encoding at `offset`, returns the position after it and changes
      nothing else. */
  method Write(x: CborRaw, out: array<byte>, offset: usize) returns (end: usize)
    requires Valid(x) && offset + |Enc(x)| <= out.Length <= USIZE_MAX
    modifies out
    ensures end == offset + |Enc(x)|
    ensures out[..] == Overwrite(old(out[..]), offset, Enc(x))
    decreases x, 1
  {
    hide Valid, WF, Ser, SerAll, Abs, AbsHead, HeaderOf, HeadOk, HeadBytes, MajorType, GetHeader;
    hide Enc, EncAll, EncEntries, Overwrite;
    MajorTypeCases(x);
    EncodingParts(x);
    BodyOf(x);
    ghost var head, body := HeadBytes(AbsHead(x)), Body(Abs(x));
    OverwriteAppend(out[..], offset, head, body);
    var deep := ComputeDeep(x);
    var xh1 := GetHeader(x);
    var res1 := WriteHeader(xh1, out, offset, AbsHead(x));
    OverwriteNothing(out[..], res1);
    end := res1;
    if deep {
      if xh1.fst.majorType == MAJOR_BYTE_STRING || xh1.fst.majorType == MAJOR_TEXT_STRING {
        assert false;
      } else if xh1.fst.majorType == MAJOR_ARRAY {
        if x.CaseArray? {
          end := WriteArray(x, out, res1);
        } else {
          assert false;
        }
      } else if xh1.fst.majorType == MAJOR_MAP {
        if x.CaseMap? {
          end := WriteMap(x, out, res1);
        } else {
          assert false;
        }
      } else if xh1.fst.majorType == MAJOR_TAGGED {
        if x.CaseTagged? {
          ValidTagged(x);
          end := Write(x.taggedPtr[0], out, res1);
        } else {
          assert false;
        }
      } else {
        assert false;
      }
    } else if xh1.fst.majorType == MAJOR_BYTE_STRING || xh1.fst.majorType == MAJOR_TEXT_STRING {
      end := CopyFromSlice(x.stringPtr, out, res1);
    } else if xh1.fst.majorType == MAJOR_ARRAY {
      if x.CaseArray? {
        EncodingsEnd(x.arrayPtr, []);
      } else {
        end := CopyFromSlice(x.payload, out, res1);
      }
    } else if xh1.fst.majorType == MAJOR_MAP {
      if x.CaseMap? {
        EncodingsEnd([], x.mapPtr);
      } else {
        end := CopyFromSlice(x.payload, out, res1);
      }
    } else if xh1.fst.majorType == MAJOR_TAGGED {
      if x.CaseTagged? {
        assert false;
      } else {
        end := CopyFromSlice(x.payload, out, res1);
      }
    }
  }

  method WriteArray(x: CborRaw, out: array<byte>, res1: usize) returns (end: usize)
    requires x.CaseArray? && ValidAll(x.arrayPtr) && |x.arrayPtr| <= USIZE_MAX
    requires res1 + |EncAll(x.arrayPtr)| <= out.Length <= USIZE_MAX
    modifies out
    ensures end == res1 + |EncAll(x.arrayPtr)|
    ensures out[..] == Overwrite(old(out[..]), res1, EncAll(x.arrayPtr))
    decreases x, 0
  {
    hide Valid, Abs, WF, Ser, EncAll, Enc, Overwrite;
    var a := x.arrayPtr;
    var len: usize := |a|;
    var i: usize := 0;
    end := res1;
    ghost var written: seq<byte> := [];
    OverwriteNothing(out[..], res1);
    assert a[0..] == a;
    while i < len
      invariant i <= len
      invariant written + EncAll(a[i..]) == EncAll(a) && end == res1 + |written|
      invariant out[..] == Overwrite(old(out[..]), res1, written)
    {
      EncAllStep(a, i);
      var e := a[i];
      OverwriteAppend(old(out[..]), res1, written, Enc(e));
      end := Write(e, out, end);
      written := written + Enc(e);
      i := i + 1;
    }
    EncodingsEnd(a[len..], []);
    assert written == EncAll(a);
  }

  method WriteMap(x: CborRaw, out: array<byte>, res1: usize) returns (end: usize)
    requires x.CaseMap? && ValidEntries(x.mapPtr) && |x.mapPtr| <= USIZE_MAX
    requires res1 + |EncEntries(x.mapPtr)| <= out.Length <= USIZE_MAX
    modifies out
    ensures end == res1 + |EncEntries(x.mapPtr)|
    ensures out[..] == Overwrite(old(out[..]), res1, EncEntries(x.mapPtr))
    decreases x, 0
  {
    hide Valid, Abs, WF, Ser, EncEntries, Enc, Overwrite;
    var a := x.mapPtr;
    var len: usize := |a|;
    var i: usize := 0;
    end := res1;
    ghost var written: seq<byte> := [];
    OverwriteNothing(out[..], res1);
    assert a[0..] == a;
    while i < len
      invariant i <= len
      invariant written + EncEntries(a[i..]) == EncEntries(a) && end == res1 + |written|
      invariant out[..] == Overwrite(old(out[..]), res1, written)
    {
      EncEntriesStep(a, i);
      var e := a[i];
      OverwriteAppend(old(out[..]), res1, written, Enc(e.key));
      end := Write(e.key, out, end);
      written := written + Enc(e.key);
      OverwriteAppend(old(out[..]), res1, written, Enc(e.value));
      end := Write(e.value, out, end);
      written := written + Enc(e.value);
      i := i + 1;
    }
    EncodingsEnd([], a[len..]);
    assert written == EncEntries(a);
  }

  // ------------------------------------------------------------------
  // The interface
  // ------------------------------------------------------------------

  /** The exact size of the encoding if it fits, and 0 otherwise. */
  method CborSize(x: CborRaw, bound: usize) returns (size: usize)
    requires Valid(x)
    ensures size == if |Enc(x)| <= bound then |Enc(x)| else 0
  {
    hide Enc, Valid;
    var output := new usize[1](_ => bound);
    var res := Siz(x, output);
    if res {
      var rem := output[0];
      size := bound - rem;
    } else {
      size := 0;
    }
  }

  /** Writes the encoding at the front of the buffer. */
  method CborSerialize(x: CborRaw, output: array<byte>) returns (end: usize)
    requires Valid(x) && |Enc(x)| <= output.Length <= USIZE_MAX
    modifies output
    ensures end == |Enc(x)|
    ensures output[..] == Enc(x) + old(output[..])[end..]
  {
    hide Enc, Valid;
    end := Write(x, output, 0);
  }
}
