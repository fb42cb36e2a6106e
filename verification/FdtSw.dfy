/**
 fdt/fdt_sw.c: building a blob by sequential writes. The buffer grows at both ends; the ghost fields say which
 reservations and calls it records, and with which tokens. Name offsets are negative until `fdt_finish` relocates
 them in one pass over the tokens.
 */
module FdtSw {
  import opened Bytes
  import opened Tokens
  import opened Forests
  import opened Blobs
  import opened Layouts
  import opened SwLayouts
  import opened Edits
  import opened Fdt
  import opened FdtRw

  /** What the caller asked to be written. */
  datatype Event =
    | BeginEv(name: seq<byte>)
    | EndEv
    | PropEv(name: seq<byte>, val: seq<byte>)

  /** Name offsets of an unfinished blob count back from the end of the strings. */
  function Shift(names: seq<byte>): int { |names| - 0x1_0000_0000 }

  /** The token records the event; property names are found `shift` away from the stored offset. */
  ghost predicate Records(t: Token, e: Event, names: seq<byte>, shift: int) {
    match e
    case BeginEv(n) => t.BeginNode? && t.name == n
    case EndEv => t == EndNode
    case PropEv(n, v) => t.Prop? && t.val == v && StrAt(names, t.nameoff + shift) == Some(n)
  }

  ghost predicate RecordsAll(toks: seq<Token>, log: seq<Event>, names: seq<byte>, shift: int) {
    |toks| == |log| && forall i :: 0 <= i < |toks| ==> Records(toks[i], log[i], names, shift)
  }

  /** The reservations end with the empty entry of `fdt_finish_reservemap`. */
  predicate Terminated(rsv: seq<Rsv>) { rsv != [] && rsv[|rsv| - 1] == Rsv(0, 0) }

  /** An unfinished blob holding these reservations and, once they are finished, these tokens. */
  ghost predicate Building(b: seq<byte>, rsv: seq<Rsv>, toks: seq<Token>, log: seq<Event>)
  {
    && SwSound(b) && SwRsv(b) == EncRsv(rsv)
    && AllValid(toks) && StructOf(b) == Enc(toks)
    && RecordsAll(toks, log, TailOf(b), Shift(TailOf(b)))
    && (Hdr(b).offStrings == Hdr(b).totalsize ==> Terminated(rsv))
    && (Hdr(b).offStrings != Hdr(b).totalsize ==> Hdr(b).offStrings == 0 && toks == [] && Hdr(b).sizeStrings == 0)
  }

  /** A finished blob: the same reservations, names and values, and an END token. */
  ghost predicate Finished(b: seq<byte>, rsv: seq<Rsv>, toks: seq<Token>, log: seq<Event>)
  {
    && Sound(b) && Ordered(Hdr(b)) && RsvOf(b) == EncRsv(rsv) && Hdr(b).offRsv == SW_HEADER
    && AllValid(toks + [End]) && StructOf(b) == Enc(toks + [End])
    && RecordsAll(toks, log, StringsOf(b), 0)
    && Hdr(b).totalsize == DataSize(Hdr(b)) && Terminated(rsv)
  }

  lemma StrAtSuffix(x: seq<byte>, s: seq<byte>, k: int)
    requires StrAt(s, k).Some?
    ensures StrAt(x + s, |x| + k) == StrAt(s, k)
  {
    var v := StrAt(s, k).value;
    var t := x + s;
    assert t[|x| + k..|x| + k + |v| + 1] == s[k..k + |v| + 1] == v + [0];
    StrAtIs(t, |x| + k, v);
  }

  /** Strings put in front do not disturb names counted from the end. */
  lemma MoreNames(toks: seq<Token>, log: seq<Event>, names: seq<byte>, x: seq<byte>)
    requires RecordsAll(toks, log, names, Shift(names))
    ensures RecordsAll(toks, log, x + names, Shift(x + names))
  {
    forall i | 0 <= i < |toks| ensures Records(toks[i], log[i], x + names, Shift(x + names)) {
      if log[i].PropEv? {
        StrAtSuffix(x, names, toks[i].nameoff + Shift(names));
      }
    }
  }

  lemma PutLast(a: seq<byte>, x: seq<byte>, k: nat, y: seq<byte>)
    requires k + |y| <= |x|
    ensures Put(a + x, |a| + k, y) == a + Put(x, k, y)
  {
  }

  /** A complete token behind the others. */
  lemma TokenAppended(b: seq<byte>, c: seq<byte>, rsv: seq<Rsv>, toks: seq<Token>, log: seq<Event>, x: seq<byte>,
      t: Token, e: Event)
    requires Building(b, rsv, toks, log) && Hdr(b).offStrings == Hdr(b).totalsize
    requires SwSound(c) && SwRsv(c) == SwRsv(b) && TailOf(c) == x + TailOf(b)
    requires Hdr(c).offStrings == Hdr(c).totalsize
    requires t.Valid() && StructOf(c) == StructOf(b) + t.Bytes() && Records(t, e, TailOf(c), Shift(TailOf(c)))
    ensures Building(c, rsv, toks + [t], log + [e])
  {
    hide Hdr, StructOf, TailOf, SwRsv;
    EncOne(t);
    EncConcat(toks, [t]);
    MoreNames(toks, log, TailOf(b), x);
  }

  /**
   The room test of `fdt_add_string_` is made on unsigned numbers: it refuses a string of `len` bytes that
   would run into the structure block, and lets one through that would start in front of the buffer.
   */
  lemma RoomTest(h: Header, size: nat, len: nat)
    requires SwHeader(h, size) && len <= INT_MAX
    ensures var at := h.totalsize - h.sizeStrings - len; var top := h.offStruct + h.sizeStruct;
      Wrap32(at) < top <==> 0 <= at < top
  {
    var at := h.totalsize - h.sizeStrings - len;
    assert at < 0 ==> Wrap32(at) == at + 0x1_0000_0000;
  }

  /** In a blob of 100 bytes with an empty reservation map a name of 200 bytes and its NUL pass the test. */
  lemma RoomTestPasses()
    ensures exists h: Header :: var at := h.totalsize - h.sizeStrings - 201;
      SwHeader(h, 100) && h.totalsize == 100 && at < 0 && Wrap32(at) >= h.offStruct + h.sizeStruct
  {
    var h := Header(FDT_SW_MAGIC, 100, SW_HEADER + RSV_SIZE, 100, SW_HEADER, 17, 0, 0, 0, 0);
    RoomTest(h, 100, 201);
    assert SwHeader(h, 100) && Wrap32(h.totalsize - h.sizeStrings - 201) >= h.offStruct + h.sizeStruct;
  }

  /** A blob under construction in a buffer; the ghost fields say what has been written. */
  class Writer {
    const buf: array<byte>
    ghost var rsv: seq<Rsv>
    ghost var toks: seq<Token>
    ghost var log: seq<Event>

    ghost predicate Valid()
      reads this, buf
    {
      Building(buf[..], rsv, toks, log)
    }

    /** Reservations are being added. */
    ghost predicate InMemrsv()
      reads this, buf
    {
      Valid() && Hdr(buf[..]).offStrings == 0
    }

    /** Nodes and properties are being added. */
    ghost predicate InStruct()
      reads this, buf
    {
      Valid() && Hdr(buf[..]).offStrings == Hdr(buf[..]).totalsize
    }

    constructor (buf: array<byte>)
      ensures this.buf == buf
    {
      this.buf := buf;
      rsv, toks, log := [], [], [];
    }

    method SetWord(k: nat, v: u32)
      requires k < 10 && buf.Length >= HEADER_SIZE
      modifies buf
      ensures buf[..] == Put(old(buf[..]), 4 * k, Enc32(v))
    {
      Memcpy(buf, 4 * k, Enc32(v));
    }

    /** `fdt_grab_space_`: the offset of `len` fresh bytes of the structure block, or -1. */
    method GrabSpace(len: nat) returns (offset: int)
      requires SwSound(buf[..]) && len < INT_MAX
      modifies buf
      ensures offset >= 0 <==> len <= SwFree(Hdr(old(buf[..])))
      ensures var h := Hdr(old(buf[..]));
        offset >= 0 <==> h.offStruct + h.sizeStruct + len + h.sizeStrings <= h.totalsize
      ensures offset < 0 ==> buf[..] == old(buf[..])
      ensures offset >= 0 ==> SwSound(buf[..]) && offset == |StructOf(old(buf[..]))|
      ensures offset >= 0 ==> Hdr(buf[..]) == Hdr(old(buf[..])).(sizeStruct := Hdr(old(buf[..])).sizeStruct + len)
      ensures offset >= 0 ==> exists gap :: |gap| == len && StructOf(buf[..]) == StructOf(old(buf[..])) + gap
      ensures offset >= 0 ==> TailOf(buf[..]) == TailOf(old(buf[..])) && SwRsv(buf[..]) == SwRsv(old(buf[..]))
    {
      hide Hdr, Put, Enc32;
      var h := Hdr(buf[..]);
      offset := h.sizeStruct;
      var spaceleft := h.totalsize - h.offStruct - h.sizeStrings;
      if offset + len < offset || offset + len > spaceleft {
        return -1;
      }
      SwGrab(buf[..], len);
      SetWord(W_SIZE_STRUCT, offset + len);
    }

    method WriteAt(q: nat, x: seq<byte>)
      requires SwSound(buf[..]) && q + |x| <= |StructOf(buf[..])|
      modifies buf
      ensures SwSound(buf[..]) && Hdr(buf[..]) == Hdr(old(buf[..]))
      ensures StructOf(buf[..]) == Put(StructOf(old(buf[..])), q, x)
      ensures TailOf(buf[..]) == TailOf(old(buf[..])) && SwRsv(buf[..]) == SwRsv(old(buf[..]))
    {
      hide Hdr, Put;
      SwPutStruct(buf[..], q, x);
      var base := Hdr(buf[..]).offStruct;
      Memcpy(buf, base + q, x);
    }

    /** `fdt_begin_node`. */
    method BeginNode(name: seq<byte>) returns (err: int)
      requires Valid() && NoNul(name) && |name| < INT_MAX - 16
      modifies this, buf
      ensures Valid() && rsv == old(rsv)
      ensures err == if old(InMemrsv()) then -BADSTATE
                     else if 4 + Align4(|name| + 1) <= SwFree(Hdr(old(buf[..]))) then 0 else -NOSPACE
      ensures err != 0 ==> buf[..] == old(buf[..]) && toks == old(toks) && log == old(log)
      ensures err == 0 ==> InStruct() && log == old(log) + [BeginEv(name)]
    {
      hide Hdr, Put, Enc32, StructOf, TailOf, SwRsv, Align4, Enc;
      ghost var b := buf[..];
      var h := Hdr(buf[..]);
      if h.offStrings != h.totalsize {
        return -BADSTATE;
      }
      var nh := GrabSpace(4 + Align4(|name| + 1));
      if nh < 0 {
        return -NOSPACE;
      }
      ghost var gap :| |gap| == 4 + Align4(|name| + 1) && StructOf(buf[..]) == StructOf(b) + gap;
      WriteAt(nh, Enc32(FDT_BEGIN_NODE));
      PutLast(StructOf(b), gap, 0, Enc32(FDT_BEGIN_NODE));
      WriteAt(nh + 4, name + [0]);
      PutLast(StructOf(b), Put(gap, 0, Enc32(FDT_BEGIN_NODE)), 4, name + [0]);
      ghost var t := Token.BeginNode(name, gap[4 + |name| + 1..]);
      NodeStored(gap, name);
      TokenAppended(b, buf[..], rsv, toks, log, [], t, BeginEv(name));
      toks, log := toks + [t], log + [BeginEv(name)];
      return 0;
    }

    /** `fdt_end_node`; that a node is open is not checked. */
    method EndNode() returns (err: int)
      requires Valid()
      modifies this, buf
      ensures Valid() && rsv == old(rsv)
      ensures err == if old(InMemrsv()) then -BADSTATE else if 4 <= SwFree(Hdr(old(buf[..]))) then 0 else -NOSPACE
      ensures err != 0 ==> buf[..] == old(buf[..]) && toks == old(toks) && log == old(log)
      ensures err == 0 ==> InStruct() && log == old(log) + [EndEv]
    {
      hide Hdr, Put, Enc32, StructOf, TailOf, SwRsv, Enc;
      ghost var b := buf[..];
      var h := Hdr(buf[..]);
      if h.offStrings != h.totalsize {
        return -BADSTATE;
      }
      var en := GrabSpace(4);
      if en < 0 {
        return -NOSPACE;
      }
      ghost var gap :| |gap| == 4 && StructOf(buf[..]) == StructOf(b) + gap;
      WriteAt(en, Enc32(FDT_END_NODE));
      PutLast(StructOf(b), gap, 0, Enc32(FDT_END_NODE));
      PutWhole(gap, Enc32(FDT_END_NODE));
      TokenAppended(b, buf[..], rsv, toks, log, [], Token.EndNode, EndEv);
      toks, log := toks + [Token.EndNode], log + [EndEv];
      return 0;
    }

    /**
     `fdt_add_string_`: the string in front of the others, and its (negative) offset from the end.
     A string that would start in front of the buffer passes the test, see `RoomTest`.
     */
    method AddString(s: seq<byte>) returns (offset: int)
      requires SwSound(buf[..]) && NoNul(s)
      requires |s| + 1 + Hdr(buf[..]).sizeStrings <= Hdr(buf[..]).totalsize
      modifies buf
      ensures offset == 0 <==> |s| + 1 > SwFree(Hdr(old(buf[..])))
      ensures offset == 0 ==> buf[..] == old(buf[..])
      ensures offset != 0 ==>
        offset == -(|TailOf(old(buf[..]))| + |s| + 1) && buf[..] == TailGrown(old(buf[..]), s + [0])
    {
      hide Hdr, Put, Enc32;
      var h := Hdr(buf[..]);
      var len := |s| + 1;
      offset := 0 - h.sizeStrings - len;
      var struct_top := h.offStruct + h.sizeStruct;
      if Wrap32(h.totalsize + offset) < struct_top {
        return 0;
      }
      Memcpy(buf, h.totalsize + offset, s + [0]);
      PutKeepsHeader(old(buf[..]), h.totalsize + offset, s + [0]);
      SetWord(W_SIZE_STRINGS, h.sizeStrings + len);
    }

    /** `fdt_find_add_string_`, or `fdt_add_string_` alone when de-duplication is switched off. */
    method NameOffset(name: seq<byte>) returns (nameoff: int, added: bool)
      requires SwSound(buf[..]) && NoNul(name)
      requires |name| + 1 + Hdr(buf[..]).sizeStrings <= Hdr(buf[..]).totalsize
      modifies buf
      ensures nameoff <= 0 && -INT_MAX < nameoff
      ensures nameoff == 0 ==> added && buf[..] == old(buf[..]) && |name| + 1 > SwFree(Hdr(old(buf[..])))
      ensures nameoff != 0 && added ==>
        |name| + 1 <= SwFree(Hdr(old(buf[..]))) && buf[..] == TailGrown(old(buf[..]), name + [0])
      ensures nameoff != 0 && !added ==> buf[..] == old(buf[..])
      ensures nameoff != 0 ==> SwSound(buf[..]) && StrAt(TailOf(buf[..]), nameoff + |TailOf(buf[..])|) == Some(name)
      ensures added <==> Hdr(old(buf[..])).lastComp == 1 || forall i :: !OccursAt(TailOf(old(buf[..])), name, i)
    {
      hide Hdr, Put, Enc32;
      ghost var b := buf[..];
      var h := Hdr(buf[..]);
      if h.lastComp == 0 {
        var p := FindString(TailOf(buf[..]), name);
        if p >= 0 {
          StrAtIs(TailOf(b), p, name);
          return p - h.sizeStrings, false;
        }
      }
      added := true;
      nameoff := AddString(name);
      if nameoff != 0 {
        TailGrownParts(b, name + [0]);
        StrAtIs(TailOf(buf[..]), 0, name);
      }
    }

    /** `fdt_del_last_string_`. */
    method DelLastString(s: seq<byte>)
      requires buf.Length >= HEADER_SIZE && Hdr(buf[..]).sizeStrings >= |s| + 1
      modifies buf
      ensures buf[..] == Put(old(buf[..]), 4 * W_SIZE_STRINGS, Enc32(Hdr(old(buf[..])).sizeStrings - (|s| + 1)))
    {
      hide Hdr, Put, Enc32;
      SetWord(W_SIZE_STRINGS, Hdr(buf[..]).sizeStrings - (|s| + 1));
    }

    /** The token part of `fdt_property`. */
    method PutProperty(nameoff: int, val: seq<byte>) returns (ok: bool, ghost pad: seq<byte>)
      requires SwSound(buf[..]) && -INT_MAX < nameoff < 0 && |val| < INT_MAX - 16
      modifies buf
      ensures ok <==> 12 + Align4(|val|) <= SwFree(Hdr(old(buf[..])))
      ensures !ok ==> buf[..] == old(buf[..])
      ensures ok ==>
        SwSound(buf[..]) && TailOf(buf[..]) == TailOf(old(buf[..])) && SwRsv(buf[..]) == SwRsv(old(buf[..]))
      ensures ok ==> Hdr(buf[..]) == Hdr(old(buf[..])).(sizeStruct := Hdr(buf[..]).sizeStruct)
      ensures ok ==> var t := Token.Prop(Wrap32(nameoff), val, pad);
        t.Valid() && StructOf(buf[..]) == StructOf(old(buf[..])) + t.Bytes()
    {
      hide Hdr, Put, Enc32, StructOf, TailOf, SwRsv, Align4;
      ghost var st := StructOf(buf[..]);
      pad := [];
      var prop := GrabSpace(12 + Align4(|val|));
      if prop < 0 {
        return false, [];
      }
      ghost var gap :| |gap| == 12 + Align4(|val|) && StructOf(buf[..]) == st + gap;
      WriteAt(prop, Enc32(FDT_PROP));
      WriteAt(prop + 8, Enc32(Wrap32(nameoff)));
      WriteAt(prop + 4, Enc32(|val|));
      WriteAt(prop + 12, val);
      PropStored(st, gap, Wrap32(nameoff), val);
      return true, gap[12 + |val|..];
    }

    /**
     `fdt_property`: the name found or added at the end of the buffer, the token behind the others.
     Without room for either, the blob is as it was: an added name is rolled back.
     */
    method Property(name: seq<byte>, val: seq<byte>) returns (err: int)
      requires Valid() && NoNul(name) && |val| < INT_MAX - 16
      requires |name| + 1 + Hdr(buf[..]).sizeStrings <= Hdr(buf[..]).totalsize
      modifies this, buf
      ensures Valid() && rsv == old(rsv)
      ensures err == if old(InMemrsv()) then -BADSTATE
                     else if PropertyNeeds(old(buf[..]), name, |val|) <= SwFree(Hdr(old(buf[..]))) then 0 else -NOSPACE
      ensures err != 0 ==> toks == old(toks) && log == old(log) && Hdr(buf[..]) == Hdr(old(buf[..]))
      ensures err != 0 ==> StructOf(buf[..]) == StructOf(old(buf[..])) && TailOf(buf[..]) == TailOf(old(buf[..]))
      ensures err == 0 ==> InStruct() && log == old(log) + [PropEv(name, val)]
    {
      hide Hdr, Put, Enc32, StructOf, TailOf, SwRsv, Align4, Enc, TailGrown, StrAt;
      ghost var b := buf[..];
      var h := Hdr(buf[..]);
      if h.offStrings != h.totalsize {
        return -BADSTATE;
      }
      var nameoff, added := NameOffset(name);
      if nameoff == 0 {
        return -NOSPACE;
      }
      ghost var x := if added then name + [0] else [];
      if added {
        TailGrownParts(b, name + [0]);
      }
      assert TailOf(buf[..]) == x + TailOf(b);
      var ok; ghost var pad;
      ok, pad := PutProperty(nameoff, val);
      if !ok {
        if added {
          DelLastString(name);
          TailRolledBack(b, name + [0]);
        }
        SameBuilding(b, buf[..], rsv, toks, log);
        return -NOSPACE;
      }
      WrapNegative(nameoff);
      ghost var t := Token.Prop(Wrap32(nameoff), val, pad);
      TokenAppended(b, buf[..], rsv, toks, log, x, t, PropEv(name, val));
      toks, log := toks + [t], log + [PropEv(name, val)];
      return 0;
    }

    /** `fdt_create_with_flags`. */
    method CreateWithFlags(bufsize: nat, flags: u32) returns (err: int)
      requires bufsize <= buf.Length && bufsize < INT_MAX
      modifies this, buf
      ensures err == if bufsize < SW_HEADER then -NOSPACE else if flags > 1 then -BADFLAGS else 0
      ensures err == 0 ==> InMemrsv() && rsv == [] && toks == [] && log == []
      ensures err == 0 ==> Hdr(buf[..]) == Header(0x2ff2_0112, bufsize, 48, 0, 48, 17, flags, 0, 0, 0)
    {
      hide Hdr, Put, Enc32;
      if bufsize < SW_HEADER {
        return -NOSPACE;
      }
      if flags > 1 {
        return -BADFLAGS;
      }
      Memcpy(buf, 0, Zeros(bufsize));
      PutFront(old(buf[..]), Zeros(bufsize));
      ZeroHeader(buf[..], bufsize);
      PutHeaderWord(0, FDT_SW_MAGIC);
      PutHeaderWord(5, 17);
      PutHeaderWord(6, flags);
      PutHeaderWord(1, bufsize);
      PutHeaderWord(4, SW_HEADER);
      PutHeaderWord(2, Hdr(buf[..]).offRsv);
      PutHeaderWord(3, 0);
      rsv, toks, log := [], [], [];
      return 0;
    }

    method PutHeaderWord(k: nat, v: u32)
      requires k < 10 && buf.Length >= HEADER_SIZE
      modifies buf
      ensures Hdr(buf[..]) == WithWord(Hdr(old(buf[..])), k, v)
      ensures forall i, j :: HEADER_SIZE <= i <= j <= buf.Length ==> buf[i..j] == old(buf[i..j])
    {
      hide Hdr, Put, Enc32;
      HdrWord(buf[..], k, v);
      ghost var b := buf[..];
      forall i, j | HEADER_SIZE <= i <= j <= buf.Length ensures Put(b, 4 * k, Enc32(v))[i..j] == b[i..j] {
        HeaderWrite(b, k, v, i, j);
      }
      SetWord(k, v);
      assert forall i, j :: HEADER_SIZE <= i <= j <= buf.Length ==> buf[i..j] == buf[..][i..j];
    }

    /** `fdt_add_reservemap_entry`. */
    method AddReservemapEntry(address: u64, size: u64) returns (err: int)
      requires Valid()
      modifies this, buf
      ensures Valid() && toks == old(toks) && log == old(log)
      ensures err == if old(InStruct()) then -BADSTATE
                     else if Hdr(old(buf[..])).offStruct + 16 > Hdr(old(buf[..])).totalsize then -NOSPACE else 0
      ensures err != 0 ==> buf[..] == old(buf[..]) && rsv == old(rsv)
      ensures err == 0 ==> InMemrsv() && rsv == old(rsv) + [Rsv(address, size)]
    {
      hide Hdr, Put, Enc32;
      ghost var b := buf[..];
      var h := Hdr(buf[..]);
      if h.offStrings != 0 {
        return -BADSTATE;
      }
      if h.offStruct + 16 > h.totalsize {
        return -NOSPACE;
      }
      ghost var x := Enc64(address) + Enc64(size);
      Memcpy(buf, h.offStruct, Enc64(address) + Enc64(size));
      PutKeepsHeader(b, h.offStruct, x);
      PutSlice(b, h.offStruct, x, SW_HEADER, h.offStruct);
      PutEnd(b, SW_HEADER, h.offStruct, x);
      PutHeaderWord(2, h.offStruct + 16);
      assert buf[SW_HEADER..h.offStruct + 16] == Put(b, h.offStruct, x)[SW_HEADER..h.offStruct + 16];
      RsvAppended(rsv, Rsv(address, size));
      rsv := rsv + [Rsv(address, size)];
      return 0;
    }

    /** `fdt_finish_reservemap`: the terminating entry, and the change of state. */
    method FinishReservemap() returns (err: int)
      requires Valid()
      modifies this, buf
      ensures Valid() && toks == old(toks) && log == old(log)
      ensures err == if old(InStruct()) then -BADSTATE
                     else if Hdr(old(buf[..])).offStruct + 16 > Hdr(old(buf[..])).totalsize then -NOSPACE else 0
      ensures err != 0 ==> buf[..] == old(buf[..]) && rsv == old(rsv)
      ensures err == 0 ==> InStruct() && rsv == old(rsv) + [Rsv(0, 0)]
    {
      hide Hdr, Put, Enc32;
      err := AddReservemapEntry(0, 0);
      if err != 0 {
        return;
      }
      ghost var b := buf[..];
      ghost var h := Hdr(b);
      PutHeaderWord(3, Hdr(buf[..]).totalsize);
      assert buf[SW_HEADER..h.offStruct] == b[SW_HEADER..h.offStruct];
      return 0;
    }

    /**
     `fdt_finish`: END appended, the strings moved down behind the structure block, every property's
     name offset relocated, the header completed. The finished blob records the same events.
     */
    method Finish() returns (err: int)
      requires Valid()
      modifies this, buf
      ensures err == if old(InMemrsv()) then -BADSTATE else if 4 <= SwFree(Hdr(old(buf[..]))) then 0 else -NOSPACE
      ensures err != 0 ==> buf[..] == old(buf[..]) && Valid() && rsv == old(rsv) && toks == old(toks) && log == old(log)
      ensures err == 0 ==> Finished(buf[..], rsv, toks, log) && rsv == old(rsv) && log == old(log)
      ensures err == 0 ==> var h := Hdr(old(buf[..])); var n := h.offStruct + h.sizeStruct + 4;
        Hdr(buf[..]) == Header(0xd00d_feed, n + h.sizeStrings, h.offStruct, n, h.offRsv, h.version, 2, h.bootCpu,
          h.sizeStrings, h.sizeStruct + 4)
    {
      hide Hdr, Put, Enc32, StructOf, TailOf, SwRsv, Enc, Moved, AllValid, RecordsAll, Relocated, Shift, EncRsv;
      ghost var b := buf[..];
      var h := Hdr(buf[..]);
      if h.offStrings != h.totalsize {
        return -BADSTATE;
      }
      NoEnd(toks, log, TailOf(b), Shift(TailOf(b)));
      var ok := AddTerminator();
      if !ok {
        return -NOSPACE;
      }
      EncOne(End);
      EncConcat(toks, [End]);
      h := Hdr(buf[..]);
      ghost var c := buf[..];
      MoveStrings();
      Relocate(c);
      ghost var e := buf[..];
      CompleteHeader();
      FinishedBlob(c, e, buf[..], rsv, toks, log);
      toks := Relocated(toks, h.sizeStrings);
      return 0;
    }

    /** The strings moved down behind the structure block. */
    method MoveStrings()
      requires SwSound(buf[..])
      modifies buf
      ensures Relocating(old(buf[..]), buf[..]) && StructOf(buf[..]) == StructOf(old(buf[..]))
    {
      hide Hdr, Put, Enc32, StructOf, Moved;
      ghost var c := buf[..];
      var h := Hdr(buf[..]);
      var oldstroffset := h.totalsize - h.sizeStrings;
      var newstroffset := h.offStruct + h.sizeStruct;
      Memmove(buf, newstroffset, oldstroffset, h.sizeStrings);
      StringsMoved(c);
      ghost var m := buf[..];
      PutHeaderWord(3, newstroffset);
      MovedRelocating(c, m, buf[..]);
    }

    /** The three header words that make the blob complete. */
    method CompleteHeader()
      requires buf.Length >= HEADER_SIZE && Hdr(buf[..]).offStrings + Hdr(buf[..]).sizeStrings < INT_MAX
      modifies buf
      ensures var h := Hdr(old(buf[..]));
        Hdr(buf[..]) == h.(totalsize := h.offStrings + h.sizeStrings, lastComp := 2, magic := FDT_MAGIC)
      ensures forall i, j :: HEADER_SIZE <= i <= j <= buf.Length ==> buf[i..j] == old(buf[i..j])
    {
      hide Hdr;
      PutHeaderWord(1, Hdr(buf[..]).offStrings + Hdr(buf[..]).sizeStrings);
      PutHeaderWord(6, 2);
      PutHeaderWord(0, FDT_MAGIC);
    }

    method AddTerminator() returns (ok: bool)
      requires SwSound(buf[..])
      modifies buf
      ensures ok <==> 4 <= SwFree(Hdr(old(buf[..])))
      ensures !ok ==> buf[..] == old(buf[..])
      ensures ok ==>
        SwSound(buf[..]) && TailOf(buf[..]) == TailOf(old(buf[..])) && SwRsv(buf[..]) == SwRsv(old(buf[..]))
      ensures ok ==> StructOf(buf[..]) == StructOf(old(buf[..])) + Enc32(FDT_END)
      ensures ok ==> Hdr(buf[..]) == Hdr(old(buf[..])).(sizeStruct := Hdr(old(buf[..])).sizeStruct + 4)
    {
      hide Hdr, Put, Enc32, StructOf, TailOf, SwRsv;
      ghost var b := buf[..];
      var end := GrabSpace(4);
      if end < 0 {
        return false;
      }
      ghost var gap :| |gap| == 4 && StructOf(buf[..]) == StructOf(b) + gap;
      WriteAt(end, Enc32(FDT_END));
      PutLast(StructOf(b), gap, 0, Enc32(FDT_END));
      PutWhole(gap, Enc32(FDT_END));
      return true;
    }

    /** The relocation loop of `fdt_finish`. */
    method Relocate(ghost c: seq<byte>)
      requires SwSound(c) && AllValid(toks + [End]) && StructOf(c) == Enc(toks + [End]) && End !in toks
      requires Relocating(c, buf[..]) && StructOf(buf[..]) == StructOf(c)
      modifies buf
      ensures Relocating(c, buf[..]) && AllValid(Relocated(toks, Hdr(c).sizeStrings) + [End])
      ensures StructOf(buf[..]) == Enc(Relocated(toks, Hdr(c).sizeStrings) + [End])
    {
      hide Hdr, Put, Enc32, StructOf, TailOf, SwRsv, Enc, NextTagAt, Relocated;
      ghost var n := Hdr(c).sizeStrings;
      ghost var i := 0;
      var offset := 0;
      RelocatedNone(toks, n);
      EmptyEnc();
      while true
        invariant 0 <= i <= |toks| && Relocating(c, buf[..])
        invariant AllValid(Mixed(toks, i, n)) && AllValid(Mixed(toks, i, n)[..i])
        invariant StructOf(buf[..]) == Enc(Mixed(toks, i, n)) && offset == |Enc(Mixed(toks, i, n)[..i])|
        decreases |toks| - i
      {
        MixedNext(buf[..], toks, i, n, offset);
        var tag, nextoffset := NextTag(buf[..], offset);
        if tag == FDT_END {
          break;
        }
        if tag == FDT_PROP {
          var base := Hdr(buf[..]).offStruct + offset + 8;
          MixedProp(buf[..], toks, i, n, offset);
          var nameoff := Int32(Dec32(buf[..], base)) + Hdr(buf[..]).sizeStrings;
          RelocatingWrite(c, buf[..], offset + 8, Enc32(Wrap32(nameoff)));
          Memcpy(buf, base, Enc32(Wrap32(nameoff)));
        } else {
          MixedOther(toks, i, n);
        }
        offset := nextoffset;
        i := i + 1;
      }
    }
  }

  /** A BEGIN_NODE and its name written into fresh storage; the padding keeps what was there. */
  lemma NodeStored(gap: seq<byte>, name: seq<byte>)
    requires NoNul(name) && |gap| == 4 + Align4(|name| + 1)
    ensures var t := Token.BeginNode(name, gap[4 + |name| + 1..]);
      t.Valid() && Put(Put(gap, 0, Enc32(FDT_BEGIN_NODE)), 4, name + [0]) == t.Bytes()
  {
    hide Enc32, Align4;
    var g1 := Put(gap, 0, Enc32(FDT_BEGIN_NODE));
    assert g1 == Enc32(FDT_BEGIN_NODE) + gap[4..];
    assert Put(g1, 4, name + [0]) == Enc32(FDT_BEGIN_NODE) + (name + [0]) + gap[4 + |name| + 1..];
  }

  /** Bytes a property call takes from the free space. */
  ghost function PropertyNeeds(b: seq<byte>, name: seq<byte>, len: nat): nat
    requires SwSound(b)
  {
    12 + Align4(len) + if Hdr(b).lastComp == 1 || forall i :: !OccursAt(TailOf(b), name, i) then |name| + 1 else 0
  }

  lemma PutKeepsHeader(b: seq<byte>, at: nat, x: seq<byte>)
    requires HEADER_SIZE <= at && at + |x| <= |b|
    ensures Hdr(Put(b, at, x)) == Hdr(b)
  {
    hide Hdr, Put;
    var c := Put(b, at, x);
    PutSlice(b, at, x, 0, HEADER_SIZE);
    assert c[..HEADER_SIZE] == c[0..HEADER_SIZE] && b[..HEADER_SIZE] == b[0..HEADER_SIZE];
    HdrKept(b, c);
  }

  lemma WrapNegative(x: int)
    requires -INT_MAX < x < 0
    ensures Wrap32(x) == x + 0x1_0000_0000
  {
  }

  lemma SameBuilding(b: seq<byte>, c: seq<byte>, rsv: seq<Rsv>, toks: seq<Token>, log: seq<Event>)
    requires Building(b, rsv, toks, log) && SwSound(c) && Hdr(c) == Hdr(b)
    requires StructOf(c) == StructOf(b) && TailOf(c) == TailOf(b) && SwRsv(c) == SwRsv(b)
    ensures Building(c, rsv, toks, log)
  {
  }

  /** Three header words and the value written into fresh storage behind `st`. */
  lemma PropStored(st: seq<byte>, gap: seq<byte>, nameoff: u32, val: seq<byte>)
    requires |val| <= INT_MAX && |gap| == 12 + Align4(|val|)
    ensures var t := Token.Prop(nameoff, val, gap[12 + |val|..]); var q := |st|;
      t.Valid() &&
      Put(Put(Put(Put(st + gap, q, Enc32(FDT_PROP)), q + 8, Enc32(nameoff)), q + 4, Enc32(|val|)), q + 12, val)
        == st + t.Bytes()
  {
    hide Enc32, Align4, Put;
    var g1 := Put(gap, 0, Enc32(FDT_PROP));
    var g2 := Put(g1, 8, Enc32(nameoff));
    var g3 := Put(g2, 4, Enc32(|val|));
    PutLast(st, gap, 0, Enc32(FDT_PROP));
    PutLast(st, g1, 8, Enc32(nameoff));
    PutLast(st, g2, 4, Enc32(|val|));
    PutLast(st, g3, 12, val);
    ThreeWords(gap, nameoff, |val|);
    var h := Enc32(FDT_PROP) + Enc32(|val|) + Enc32(nameoff);
    PutMiddle(h, gap[12..12 + |val|], gap[12 + |val|..], 0, val);
    PutWhole(gap[12..12 + |val|], val);
  }

  lemma RsvAppended(rs: seq<Rsv>, r: Rsv)
    ensures EncRsv(rs + [r]) == EncRsv(rs) + (Enc64(r.address) + Enc64(r.size))
  {
    assert (rs + [r])[..|rs|] == rs;
  }

  /** After the `memset` every header word is zero. */
  lemma ZeroHeader(b: seq<byte>, n: nat)
    requires HEADER_SIZE <= n <= |b| && b[..n] == Zeros(n)
    ensures Hdr(b) == Header(0, 0, 0, 0, 0, 0, 0, 0, 0, 0)
  {
    hide Dec32;
    forall i | 0 <= i < 10 ensures Word(b, i) == 0 {
      ZeroWord(b, n, 4 * i);
    }
  }

  lemma ZeroWord(b: seq<byte>, n: nat, k: nat)
    requires k + 4 <= n <= |b| && b[..n] == Zeros(n)
    ensures Dec32(b, k) == 0
  {
    assert b[k] == b[..n][k] && b[k + 1] == b[..n][k + 1] && b[k + 2] == b[..n][k + 2] && b[k + 3] == b[..n][k + 3];
  }

  // ---------------------------------------------------------------- fdt_finish

  /** A property's name offset counted from the front instead of from the end. */
  function RelocatedToken(t: Token, n: u32): Token {
    match t
    case Prop(o, v, p) => Token.Prop(Wrap32(o + n), v, p)
    case _ => t
  }

  function Relocated(toks: seq<Token>, n: u32): (r: seq<Token>)
    ensures |r| == |toks|
  {
    seq(|toks|, i requires 0 <= i < |toks| => RelocatedToken(toks[i], n))
  }

  /** The first `i` tokens relocated, the others not yet, then END. */
  ghost function Mixed(toks: seq<Token>, i: nat, n: u32): (r: seq<Token>)
    requires i <= |toks|
    ensures |r| == |toks| + 1
  {
    Relocated(toks[..i], n) + toks[i..] + [End]
  }

  /** While offsets are being relocated only the structure block differs from `c` after the move. */
  ghost predicate Relocating(c: seq<byte>, b: seq<byte>)
    requires SwSound(c)
  {
    && |b| == |c| && StructIn(b)
    && Hdr(b) == Hdr(c).(offStrings := Hdr(c).offStruct + Hdr(c).sizeStruct)
    && b[SW_HEADER..Hdr(c).offStruct] == SwRsv(c)
    && b[Hdr(c).offStruct + Hdr(c).sizeStruct..Hdr(c).offStruct + Hdr(c).sizeStruct + Hdr(c).sizeStrings] == TailOf(c)
  }

  /** The move downwards: the source is read before the free space is overwritten. */
  lemma StringsMoved(c: seq<byte>)
    requires SwSound(c)
    ensures var h := Hdr(c); var e := h.offStruct + h.sizeStruct;
      var m := Moved(c, e, h.totalsize - h.sizeStrings, h.sizeStrings);
      && Hdr(m) == h && m[e..e + h.sizeStrings] == TailOf(c)
      && m[SW_HEADER..h.offStruct] == SwRsv(c) && m[h.offStruct..e] == StructOf(c)
  {
    hide Hdr, Put;
    var h := Hdr(c);
    var e := h.offStruct + h.sizeStruct;
    var x := c[h.totalsize - h.sizeStrings..h.totalsize];
    PutKeepsHeader(c, e, x);
    PutSlice(c, e, x, SW_HEADER, h.offStruct);
    PutSlice(c, e, x, h.offStruct, e);
    PutSlice(c, e, x, e, e + h.sizeStrings);
    PutWhole(c[e..e + h.sizeStrings], x);
  }

  /** The state in which the relocation loop starts. */
  lemma MovedRelocating(c: seq<byte>, m: seq<byte>, d: seq<byte>)
    requires SwSound(c)
    requires var h := Hdr(c); m == Moved(c, h.offStruct + h.sizeStruct, h.totalsize - h.sizeStrings, h.sizeStrings)
    requires |d| == |c| && Hdr(d) == Hdr(m).(offStrings := Hdr(c).offStruct + Hdr(c).sizeStruct)
    requires forall i, j :: HEADER_SIZE <= i <= j <= |m| ==> d[i..j] == m[i..j]
    ensures Relocating(c, d) && StructOf(d) == StructOf(c)
  {
    hide Hdr, Moved;
    StringsMoved(c);
    var h := Hdr(c);
    var e := h.offStruct + h.sizeStruct;
    assert d[SW_HEADER..h.offStruct] == m[SW_HEADER..h.offStruct];
    assert d[h.offStruct..e] == m[h.offStruct..e];
    assert d[e..e + h.sizeStrings] == m[e..e + h.sizeStrings];
  }

  lemma RelocatedNone(toks: seq<Token>, n: u32)
    ensures Mixed(toks, 0, n) == toks + [End] && Mixed(toks, 0, n)[..0] == []
    ensures Mixed(toks, |toks|, n) == Relocated(toks, n) + [End]
  {
    assert toks[..|toks|] == toks;
  }

  /** One more token relocated. */
  lemma MixedStep(toks: seq<Token>, i: nat, n: u32)
    requires i < |toks|
    ensures var a, z := Mixed(toks, i, n)[..i], toks[i + 1..] + [End];
      && Mixed(toks, i, n) == a + [toks[i]] + z
      && Mixed(toks, i + 1, n) == a + [RelocatedToken(toks[i], n)] + z
      && Mixed(toks, i + 1, n)[..i + 1] == a + [RelocatedToken(toks[i], n)]
  {
    assert toks[i..] == [toks[i]] + toks[i + 1..];
    assert Relocated(toks[..i + 1], n) == Relocated(toks[..i], n) + [RelocatedToken(toks[i], n)];
    assert Mixed(toks, i, n)[..i] == Relocated(toks[..i], n);
  }

  lemma MixedValid(toks: seq<Token>, i: nat, n: u32)
    requires i < |toks| && AllValid(Mixed(toks, i, n))
    ensures var a, z := Mixed(toks, i, n)[..i], toks[i + 1..] + [End];
      AllValid(a) && toks[i].Valid() && RelocatedToken(toks[i], n).Valid() && AllValid(z)
  {
    hide Mixed;
    MixedStep(toks, i, n);
    var a, z, m := Mixed(toks, i, n)[..i], toks[i + 1..] + [End], Mixed(toks, i, n);
    assert forall t :: t in a || t in z ==> t in m;
    assert m[i] == toks[i];
  }

  /** What the walk of `fdt_finish` reads at step `i`. */
  lemma MixedNext(b: seq<byte>, toks: seq<Token>, i: nat, n: u32, offset: nat)
    requires StructIn(b) && i <= |toks| && End !in toks && AllValid(Mixed(toks, i, n))
    requires AllValid(Mixed(toks, i, n)[..i]) && offset == |Enc(Mixed(toks, i, n)[..i])|
    requires StructOf(b) == Enc(Mixed(toks, i, n))
    ensures var t := if i < |toks| then toks[i] else End;
      && NextTagAt(StructOf(b), offset) == (t.Tag(), offset + t.Size())
        && offset + t.Size() <= |StructOf(b)| < INT_MAX - HEADER_SIZE
      && (t.Tag() == FDT_END <==> i == |toks|)
  {
    hide Hdr, StructOf, Enc, NextTagAt, Mixed;
    var m := Mixed(toks, i, n);
    var t := if i < |toks| then toks[i] else End;
    MixedSplit(toks, i, n);
    AreaSmall(b);
    FollowsAt(StructOf(b), m[..i], t, m[i + 1..]);
    NextTagToken(StructOf(b), m[..i], t);
    if i < |toks| {
      assert toks[i] in toks;
    }
  }

  lemma MixedSplit(toks: seq<Token>, i: nat, n: u32)
    requires i <= |toks| && AllValid(Mixed(toks, i, n))
    ensures var m, t := Mixed(toks, i, n), if i < |toks| then toks[i] else End;
      m == m[..i] + [t] + m[i + 1..] && AllValid(m[..i]) && t.Valid() && AllValid(m[i + 1..])
  {
    var m, t := Mixed(toks, i, n), if i < |toks| then toks[i] else End;
    assert m[i] == t;
    assert m == m[..i] + [t] + m[i + 1..];
    assert forall u :: u in m[..i] || u in m[i + 1..] ==> u in m;
    assert t in m;
  }

  /** Advancing past a token of unchanged size. */
  lemma MixedAdvance(toks: seq<Token>, i: nat, n: u32)
    requires i < |toks| && AllValid(Mixed(toks, i, n))
    ensures AllValid(Mixed(toks, i, n)[..i]) && AllValid(Mixed(toks, i + 1, n))
      && AllValid(Mixed(toks, i + 1, n)[..i + 1])
    ensures |Enc(Mixed(toks, i + 1, n)[..i + 1])| == |Enc(Mixed(toks, i, n)[..i])| + toks[i].Size()
    ensures var a, z := Mixed(toks, i, n)[..i], toks[i + 1..] + [End]; var t, u := toks[i], RelocatedToken(toks[i], n);
      && AllValid(z) && t.Valid() && u.Valid()
      && Enc(Mixed(toks, i, n)) == Enc(a) + t.Bytes() + Enc(z)
        && Enc(Mixed(toks, i + 1, n)) == Enc(a) + u.Bytes() + Enc(z)
  {
    hide Mixed, Enc;
    MixedStep(toks, i, n);
    MixedValid(toks, i, n);
    var a, z := Mixed(toks, i, n)[..i], toks[i + 1..] + [End];
    EncAround(a, toks[i], z);
    EncAround(a, RelocatedToken(toks[i], n), z);
  }

  lemma MixedOther(toks: seq<Token>, i: nat, n: u32)
    requires i < |toks| && !toks[i].Prop? && AllValid(Mixed(toks, i, n))
    ensures Mixed(toks, i + 1, n) == Mixed(toks, i, n)
    ensures AllValid(Mixed(toks, i, n)[..i]) && AllValid(Mixed(toks, i + 1, n)[..i + 1])
    ensures |Enc(Mixed(toks, i + 1, n)[..i + 1])| == |Enc(Mixed(toks, i, n)[..i])| + toks[i].Size()
  {
    hide Mixed, Enc;
    MixedStep(toks, i, n);
    MixedAdvance(toks, i, n);
  }

  /** Rewriting the name offset of the property at step `i`. */
  lemma MixedProp(b: seq<byte>, toks: seq<Token>, i: nat, n: u32, offset: nat)
    requires StructIn(b) && i < |toks| && toks[i].Prop? && AllValid(Mixed(toks, i, n))
    requires AllValid(Mixed(toks, i, n)[..i]) && offset == |Enc(Mixed(toks, i, n)[..i])|
    requires StructOf(b) == Enc(Mixed(toks, i, n))
    ensures var base := Hdr(b).offStruct + offset + 8;
      base + 4 <= |b| && offset + 12 <= |StructOf(b)| && Dec32(b, base) == toks[i].nameoff
    ensures AllValid(Mixed(toks, i + 1, n)) && AllValid(Mixed(toks, i + 1, n)[..i + 1])
    ensures |Enc(Mixed(toks, i + 1, n)[..i + 1])| == offset + toks[i].Size()
    ensures Put(StructOf(b), offset + 8, Enc32(Wrap32(Int32(toks[i].nameoff) + n))) == Enc(Mixed(toks, i + 1, n))
  {
    hide Hdr, StructOf, Enc, Mixed, Put, Enc32, Dec32, Wrap32, AllValid, Align4;
    var a, z := Mixed(toks, i, n)[..i], toks[i + 1..] + [End];
    MixedAdvance(toks, i, n);
    PropRead(b, a, toks[i], z);
    IntWrap(toks[i].nameoff, n);
    PutMiddle(Enc(a), toks[i].Bytes(), Enc(z), 8, Enc32(Wrap32(toks[i].nameoff + n)));
    PutNameoff(toks[i], Wrap32(toks[i].nameoff + n));
  }

  lemma PropRead(b: seq<byte>, a: seq<Token>, t: Token, z: seq<Token>)
    requires StructIn(b) && AllValid(a) && t.Prop? && t.Valid() && AllValid(z)
    requires StructOf(b) == Enc(a) + t.Bytes() + Enc(z)
    ensures var base := Hdr(b).offStruct + |Enc(a)| + 8;
      base + 4 <= |b| && |Enc(a)| + 12 <= |StructOf(b)| && Dec32(b, base) == t.nameoff
  {
    hide Hdr, StructOf, Enc, Enc32, Dec32, Align4;
    Middle(StructOf(b), Enc(a), t.Bytes(), Enc(z));
    PropWordsAt(StructOf(b), |Enc(a)|, t);
    AreaWord(b, |Enc(a)| + 8);
    AreaSmall(b);
  }

  lemma IntWrap(o: u32, n: u32)
    ensures Wrap32(Int32(o) + n) == Wrap32(o + n)
  {
  }

  lemma PutNameoff(t: Token, o: u32)
    requires t.Prop? && t.Valid()
    ensures Put(t.Bytes(), 8, Enc32(o)) == Token.Prop(o, t.val, t.pad).Bytes()
  {
    hide Enc32, Align4;
    var h := Enc32(FDT_PROP) + Enc32(|t.val|);
    var z := t.val + t.pad;
    assert t.Bytes() == h + Enc32(t.nameoff) + z;
    assert Token.Prop(o, t.val, t.pad).Bytes() == h + Enc32(o) + z;
    PutMiddle(h, Enc32(t.nameoff), z, 0, Enc32(o));
    PutWhole(Enc32(t.nameoff), Enc32(o));
  }

  lemma RelocatingWrite(c: seq<byte>, b: seq<byte>, q: nat, x: seq<byte>)
    requires SwSound(c) && Relocating(c, b) && q + |x| <= |StructOf(b)|
    ensures Hdr(b).offStruct + q + |x| <= |b|
    ensures var d := Put(b, Hdr(b).offStruct + q, x); Relocating(c, d) && StructOf(d) == Put(StructOf(b), q, x)
  {
    hide Hdr, Put;
    var h := Hdr(c);
    var at, e := h.offStruct + q, h.offStruct + h.sizeStruct;
    PutKeepsHeader(b, at, x);
    PutSlice(b, at, x, SW_HEADER, h.offStruct);
    PutSlice(b, at, x, h.offStruct, e);
    PutSlice(b, at, x, e, e + h.sizeStrings);
  }

  /** Relocated offsets read the same names from the strings block. */
  lemma RecordsRelocated(toks: seq<Token>, log: seq<Event>, names: seq<byte>, n: u32)
    requires RecordsAll(toks, log, names, Shift(names)) && n == |names|
    ensures RecordsAll(Relocated(toks, n), log, names, 0)
  {
    forall i | 0 <= i < |toks| ensures Records(Relocated(toks, n)[i], log[i], names, 0) {
      assert Records(toks[i], log[i], names, Shift(names));
    }
  }

  /** Nothing recorded is an END token. */
  lemma NoEnd(toks: seq<Token>, log: seq<Event>, names: seq<byte>, shift: int)
    requires RecordsAll(toks, log, names, shift)
    ensures End !in toks
  {
  }

  /** The completed header makes a sound, ordered, tightly packed blob of the relocated parts. */
  lemma FinishedBlob(c: seq<byte>, e: seq<byte>, f: seq<byte>, rsv: seq<Rsv>, toks: seq<Token>, log: seq<Event>)
    requires SwSound(c) && SwRsv(c) == EncRsv(rsv) && Terminated(rsv)
    requires Relocating(c, e) && RecordsAll(toks, log, TailOf(c), Shift(TailOf(c)))
    requires var r := Relocated(toks, Hdr(c).sizeStrings); AllValid(r + [End]) && StructOf(e) == Enc(r + [End])
    requires |f| == |e| && forall i, j :: HEADER_SIZE <= i <= j <= |e| ==> f[i..j] == e[i..j]
    requires Hdr(f) == Hdr(e).(totalsize := Hdr(e).offStrings + Hdr(e).sizeStrings, lastComp := 2, magic := FDT_MAGIC)
    ensures Finished(f, rsv, Relocated(toks, Hdr(c).sizeStrings), log)
  {
    hide Hdr, Enc, Relocated, AllValid, RecordsAll;
    var h := Hdr(f);
    assert f[h.offRsv..h.offStruct] == e[h.offRsv..h.offStruct];
    assert f[h.offStruct..h.offStruct + h.sizeStruct] == e[h.offStruct..h.offStruct + h.sizeStruct];
    assert f[h.offStrings..h.offStrings + h.sizeStrings] == e[h.offStrings..h.offStrings + h.sizeStrings];
    RecordsRelocated(toks, log, TailOf(c), Hdr(c).sizeStrings);
  }
}
