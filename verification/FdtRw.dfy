/**
 fdt/fdt_rw.c: editing a complete blob in place. The buffer is an array, the ghost field `tree` is the forest that
 its structure block encodes, and each method says what happens to the decoded tree: first the bytes are moved,
 then a lemma on tokens tells which forest the moved bytes encode.
 */
module FdtRw {
  import opened Bytes
  import opened Tokens
  import opened Forests
  import opened Trees
  import opened Walks
  import opened Blobs
  import opened Layouts
  import opened Edits
  import opened Fdt
  import opened FdtRo

  /** `fdt_rw_probe_`: what every editing call checks first. */
  function RwProbe(h: Header): int {
    if h.magic != FDT_MAGIC then -BADMAGIC
    else if h.version < 2 || h.lastComp > 17 then -BADVERSION
    else if h.totalsize >= INT_MAX then -TRUNCATED
    else if h.version < 17 then -BADVERSION
    else if h.offRsv < HEADER_SIZE || h.offStruct < h.offRsv + RSV_SIZE
         || h.offStrings < h.offStruct + h.sizeStruct || h.totalsize < h.offStrings + h.sizeStrings
    then -BADLAYOUT
    else 0
  }

  /** Which headers pass, and what the others get. */
  lemma ProbeMeans(h: Header)
    ensures RwProbe(h) == 0 <==>
      && h.magic == 0xd00d_feed && h.version >= 17 && h.lastComp <= 17 && h.totalsize < 0x7fff_ffff && 40 <= h.offRsv
      && h.offRsv + 16 <= h.offStruct && h.offStruct + h.sizeStruct <= h.offStrings
      && h.offStrings + h.sizeStrings <= h.totalsize
    ensures HeaderOk(h, h.totalsize) && RwProbe(h) != 0 ==> RwProbe(h) == -12
    ensures RwProbe(h) == -9 <==> h.magic != 0xd00d_feed
  {
  }

  /** A blob in a buffer, with the forest its structure block encodes. */
  class Dtb {
    const buf: array<byte>
    ghost var tree: Forest

    ghost predicate Valid()
      reads this, buf
    {
      Editable(buf[..], tree)
    }

    /** The decoded tree. */
    ghost function Meaning(): Tree
      requires Valid()
      reads this, buf
    {
      Decode(tree, StringsOf(buf[..]))
    }

    constructor (buf: array<byte>, ghost t: Forest)
      requires Editable(buf[..], t)
      ensures this.buf == buf && tree == t && Valid()
    {
      this.buf := buf;
      tree := t;
    }

    // ---------------------------------------------------------------- primitive updates

    method SetWord(k: nat, v: u32)
      requires k < 10 && buf.Length >= HEADER_SIZE
      modifies buf
      ensures buf[..] == Put(old(buf[..]), 4 * k, Enc32(v))
    {
      Memcpy(buf, 4 * k, Enc32(v));
    }

    /** `fdt_splice_`. */
    method Splice(p: int, oldlen: nat, newlen: nat) returns (err: int)
      requires Sound(buf[..])
      modifies buf
      ensures err == SpliceError(Hdr(old(buf[..])), p, oldlen, newlen)
      ensures var h := Hdr(old(buf[..])); var end := h.offStrings + h.sizeStrings;
        err == if p < 0 || p + oldlen > end then -4 else if end - oldlen + newlen > h.totalsize then -3 else 0
      ensures err != 0 ==> buf[..] == old(buf[..])
      ensures err == 0 ==> buf[..] == Spliced(old(buf[..]), DataSize(Hdr(old(buf[..]))), p, oldlen, newlen)
    {
      hide Hdr, Put;
      var h := Hdr(buf[..]);
      var end := DataSize(h);
      if p + oldlen < p || p + oldlen > end {
        return -BADOFFSET;
      }
      if p < 0 || end - oldlen + newlen < 0 {
        return -BADOFFSET;
      }
      if end - oldlen + newlen > h.totalsize {
        return -NOSPACE;
      }
      Memmove(buf, p + newlen, p + oldlen, end - p - oldlen);
      return 0;
    }

    /** `fdt_splice_struct_` at offset `q` of the structure block. */
    method SpliceStruct(q: nat, oldlen: nat, newlen: nat) returns (err: int)
      requires Sound(buf[..]) && Ordered(Hdr(buf[..])) && q + oldlen <= Hdr(buf[..]).sizeStruct
      modifies buf
      ensures err == if DataSize(Hdr(old(buf[..]))) - oldlen + newlen <= Hdr(old(buf[..])).totalsize then 0
        else -NOSPACE
      ensures err != 0 ==> buf[..] == old(buf[..])
      ensures err == 0 ==> buf[..] == StructSpliced(old(buf[..]), q, oldlen, newlen)
    {
      hide Hdr, Put, Spliced, Enc32;
      ghost var b := buf[..];
      var h := Hdr(buf[..]);
      err := Splice(h.offStruct + q, oldlen, newlen);
      if err != 0 {
        return;
      }
      SplicedHdr(b, DataSize(h), h.offStruct + q, oldlen, newlen);
      SetWord(W_SIZE_STRUCT, h.sizeStruct + newlen - oldlen);
      HdrWord(Spliced(b, DataSize(h), h.offStruct + q, oldlen, newlen), W_SIZE_STRUCT, h.sizeStruct + newlen - oldlen);
      SetWord(W_OFF_STRINGS, Hdr(buf[..]).offStrings + newlen - oldlen);
    }

    /** `memcpy` to offset `q` of the structure block. */
    method WriteStruct(q: nat, x: seq<byte>)
      requires Sound(buf[..]) && Ordered(Hdr(buf[..])) && q + |x| <= |StructOf(buf[..])|
      modifies buf
      ensures Sound(buf[..]) && Hdr(buf[..]) == Hdr(old(buf[..]))
      ensures StructOf(buf[..]) == Put(StructOf(old(buf[..])), q, x)
      ensures StringsOf(buf[..]) == StringsOf(old(buf[..])) && SameFrame(old(buf[..]), buf[..])
    {
      hide Hdr, Put;
      PutStruct(buf[..], q, x);
      var base := Hdr(buf[..]).offStruct;
      Memcpy(buf, base + q, x);
    }

    /**
     `fdt_find_add_string_`: an offset at which `name` can be read, found in the strings block
     (also as the tail of a longer string) or appended to it.
     */
    method FindAddString(name: seq<byte>) returns (off: int, added: bool)
      requires Sound(buf[..]) && Ordered(Hdr(buf[..])) && NoNul(name)
      modifies buf
      ensures off <= INT_MAX
      ensures off >= 0 && !added ==> buf[..] == old(buf[..])
      ensures off >= 0 && added ==>
        |name| + 1 <= Free(Hdr(old(buf[..]))) && buf[..] == StringAdded(old(buf[..]), name + [0])
      ensures off >= 0 ==> Sound(buf[..]) && StrAt(StringsOf(buf[..]), off) == Some(name)
      ensures off < 0 ==> off == -NOSPACE && !added && buf[..] == old(buf[..])
      ensures added || off < 0 ==> forall i :: !OccursAt(StringsOf(old(buf[..])), name, i)
      ensures off < 0 ==> |name| + 1 > Free(Hdr(old(buf[..])))
      ensures !added && off >= 0 ==> OccursAt(StringsOf(old(buf[..])), name, off)
    {
      hide Hdr, Put, Enc32, StrAt;
      added := false;
      ghost var b := buf[..];
      var h := Hdr(buf[..]);
      var len := |name| + 1;
      off := FindString(StringsOf(buf[..]), name);
      if off >= 0 {
        StrAtIs(StringsOf(b), off, name);
        return;
      }
      var err := Splice(DataSize(h), 0, len);
      if err != 0 {
        return err, false;
      }
      SplicedNothing(b, DataSize(h), len);
      SetWord(W_SIZE_STRINGS, h.sizeStrings + len);
      added := true;
      Memcpy(buf, DataSize(h), name + [0]);
      off := h.sizeStrings;
      AddedRead(b, name);
    }

    // ---------------------------------------------------------------- properties

    /** The bytes stay what they are and so does the tree. */
    twostate predicate Untouched()
      reads this, buf
    {
      buf[..] == old(buf[..]) && tree == old(tree)
    }

    /** Splice a property's value storage to a new length and rewrite its length word. */
    method ResizeAt(poff: nat, oldlen: nat, len: nat, ghost c: Cursor) returns (err: int, ghost d: Cursor)
      requires Valid() && tree == Plug(c.spot, c.here) && c.here.PropCons? && At(buf[..], c.spot, c.here, poff)
      requires oldlen == |c.here.val| && len <= INT_MAX
      modifies this, buf
      ensures err == if Align4(len) - Align4(oldlen) <= Free(Hdr(old(buf[..]))) then 0 else -NOSPACE
      ensures err != 0 ==> Untouched() && d == c
      ensures err == 0 ==> Valid() && tree == Plug(d.spot, d.here)
      ensures err == 0 ==>
        d.spot == c.spot && d.here.PropCons? && d.here.nameoff == c.here.nameoff && d.here.rest == c.here.rest
      ensures err == 0 ==> |d.here.val| == len && forall i :: 0 <= i < len && i < oldlen ==>
        d.here.val[i] == c.here.val[i]
      ensures err == 0 ==> At(buf[..], d.spot, d.here, poff)
      ensures err == 0 ==> StringsOf(buf[..]) == StringsOf(old(buf[..])) && SameFrame(old(buf[..]), buf[..])
      ensures err == 0 ==> Free(Hdr(buf[..])) == Free(Hdr(old(buf[..]))) - (Align4(len) - Align4(oldlen))
    {
      hide Hdr, Put, Enc32, Plug, Pre, Block, Enc, StructOf, StringsOf, NamesOk, Align4, StructSpliced, At, HeaderOk,
        RsvOf;
      ghost var b := buf[..];
      PropUnder(b, c, poff);
      err := SpliceStruct(poff + 12, Align4(oldlen), Align4(len));
      d := c;
      if err != 0 {
        return;
      }
      StructSplicedParts(b, poff + 12, Align4(oldlen), Align4(len));
      ghost var gap := Storage(b, poff + 12, Align4(len));
      WriteStruct(poff + 4, Enc32(len));
      d := Cursor(c.spot, PropCons(c.here.nameoff, gap[..len], gap[len..], c.here.rest));
      ResizedBlob(b, buf[..], c, poff, len);
      ValueKept(b, c, poff, Align4(len));
      tree := Plug(d.spot, d.here);
    }

    /** `fdt_resize_property_`. */
    method ResizeProperty(node: nat, name: seq<byte>, len: nat, ghost s: Spot, ghost f: Forest)
      returns (err: int, poff: int, ghost d: Cursor)
      requires Valid() && tree == Plug(s, f) && f.NodeCons? && At(buf[..], s, f, node) && len <= INT_MAX
      modifies this, buf
      ensures err != 0 ==> Untouched()
      ensures var found := FindProp(Inside(s, f.name, f.npad, f.rest), f.kids, StringsOf(old(buf[..])), name);
        match found
        case None => err == -NOTFOUND
        case Some(c) =>
          && err == (if Align4(len) - Align4(|c.here.val|) <= Free(Hdr(old(buf[..]))) then 0 else -NOSPACE)
          && (err == 0 ==> d.spot == c.spot && d.here.PropCons? && d.here.nameoff == c.here.nameoff
                           && d.here.rest == c.here.rest && |d.here.val| == len
                           && Free(Hdr(buf[..])) == Free(Hdr(old(buf[..]))) - (Align4(len) - Align4(|c.here.val|)))
      ensures err == 0 ==> Valid() && tree == Plug(d.spot, d.here) && At(buf[..], d.spot, d.here, poff)
      ensures err == 0 ==> StringsOf(buf[..]) == StringsOf(old(buf[..])) && SameFrame(old(buf[..]), buf[..])
    {
      hide Hdr, Plug, Pre, Block, Enc, StructOf, StringsOf, NamesOk, Align4, HeaderOk, RsvOf, FindProp;
      var oldlen;
      poff, oldlen := GetProperty(buf[..], node, name, s, f);
      ghost var found := FindProp(Inside(s, f.name, f.npad, f.rest), f.kids, StringsOf(buf[..]), name);
      d := Cursor(s, f);
      if poff < 0 {
        return oldlen, poff, d;
      }
      InsidePlug(s, f);
      err, d := ResizeAt(poff, oldlen, len, found.value);
    }

    /** `fdt_del_last_string_`. */
    method DelLastString(name: seq<byte>)
      requires buf.Length >= HEADER_SIZE && Hdr(buf[..]).sizeStrings >= |name| + 1
      modifies buf
      ensures buf[..] == Put(old(buf[..]), 4 * W_SIZE_STRINGS, Enc32(Hdr(old(buf[..])).sizeStrings - (|name| + 1)))
    {
      hide Hdr, Put, Enc32;
      SetWord(W_SIZE_STRINGS, Hdr(buf[..]).sizeStrings - (|name| + 1));
    }

    /** Storage for a property at `q` and its three header words. */
    method CreateAt(q: nat, nameoff: u32, len: nat, ghost s: Spot, ghost f: Forest) returns (err: int, ghost d: Cursor)
      requires Valid() && tree == Plug(s, f) && At(buf[..], s, f, q)
      requires StrAt(StringsOf(buf[..]), nameoff).Some? && len <= INT_MAX - 16
      modifies this, buf
      ensures err == if 12 + Align4(len) <= Free(Hdr(old(buf[..]))) then 0 else -NOSPACE
      ensures err != 0 ==> Untouched()
      ensures err == 0 ==> Valid() && tree == Plug(s, d.here) && At(buf[..], s, d.here, q) && d.spot == s
      ensures err == 0 ==> d.here.PropCons? && d.here.rest == f && |d.here.val| == len && d.here.nameoff == nameoff
      ensures err == 0 ==> Free(Hdr(buf[..])) == Free(Hdr(old(buf[..]))) - (12 + Align4(len))
      ensures err == 0 ==> StringsOf(buf[..]) == StringsOf(old(buf[..])) && SameFrame(old(buf[..]), buf[..])
    {
      hide Hdr, Put, Enc32, Plug, Pre, Block, Enc, StructOf, StringsOf, NamesOk, Align4, HeaderOk, RsvOf,
        StructSpliced, At;
      ghost var b := buf[..];
      AtInStruct(b, s, f, q);
      err := SpliceStruct(q, 0, 12 + Align4(len));
      d := Cursor(s, f);
      if err != 0 {
        return;
      }
      StructSplicedParts(b, q, 0, 12 + Align4(len));
      ghost var gap := Storage(b, q, 12 + Align4(len));
      WriteStruct(q, Enc32(FDT_PROP));
      WriteStruct(q + 8, Enc32(nameoff));
      WriteStruct(q + 4, Enc32(len));
      d := Cursor(s, PropCons(nameoff, gap[12..12 + len], gap[12 + len..], f));
      CreatedBlob(b, buf[..], s, f, q, nameoff, len);
      tree := Plug(s, d.here);
    }

    /**
     `fdt_add_property_`: a property in front of the node's items, its value still unset. Without room
     the added name is rolled back and the blob means what it meant.
     */
    method AddProperty(node: nat, name: seq<byte>, len: nat, ghost s: Spot, ghost f: Forest)
      returns (err: int, poff: int, ghost d: Cursor)
      requires Valid() && tree == Plug(s, f) && f.NodeCons? && At(buf[..], s, f, node)
      requires NoNul(name) && len <= INT_MAX - 16
      modifies this, buf
      ensures Valid() && SameFrame(old(buf[..]), buf[..])
      ensures err == if AddNeeds(StringsOf(old(buf[..])), name, len) <= Free(Hdr(old(buf[..]))) then 0 else -NOSPACE
      ensures err == 0 ==> Free(Hdr(buf[..])) == Free(Hdr(old(buf[..]))) - AddNeeds(StringsOf(old(buf[..])), name, len)
      ensures err != 0 ==> tree == old(tree) && SameContent(old(buf[..]), buf[..])
      ensures err == 0 ==> tree == Plug(d.spot, d.here) && At(buf[..], d.spot, d.here, poff)
      ensures err == 0 ==> d.spot == Inside(s, f.name, f.npad, f.rest) && d.here.PropCons? && d.here.rest == f.kids
      ensures err == 0 ==> |d.here.val| == len && StrAt(StringsOf(buf[..]), d.here.nameoff) == Some(name)
      ensures err == 0 ==> StringsOf(buf[..]) == AddStrings(StringsOf(old(buf[..])), name)
    {
      hide Hdr, Put, Enc32, Plug, Pre, Block, Enc, StructOf, StringsOf, NamesOk, Align4, RsvOf, StringAdded, At;
      ghost var b0 := buf[..];
      d := Cursor(s, f);
      AtNext(b0, s, f, node);
      poff := CheckOffset(buf[..], node, FDT_BEGIN_NODE);
      var nameoff, added := FindAddString(name);
      if nameoff < 0 {
        return nameoff, poff, d;
      }
      if added {
        StringAddedParts(b0, name + [0]);
      }
      MoreStrings(b0, buf[..], tree);
      InsideAt(b0, buf[..], s, f, node, poff);
      err, d := CreateAt(poff, nameoff, len, Inside(s, f.name, f.npad, f.rest), f.kids);
      if err != 0 && added {
        DelLastString(name);
        StringRolledBack(b0, name + [0]);
        MoreStrings(b0, buf[..], tree);
      }
    }

    /** `fdt_setprop_placeholder`: the property exists with the given length; its value is not yet written. */
    method SetpropPlaceholder(node: nat, name: seq<byte>, len: nat, ghost s: Spot, ghost f: Forest)
      returns (err: int, poff: int, ghost d: Cursor)
      requires Valid() && tree == Plug(s, f) && f.NodeCons? && At(buf[..], s, f, node)
      requires NoNul(name) && len <= INT_MAX - 16
      modifies this, buf
      ensures Valid() && SameFrame(old(buf[..]), buf[..])
      ensures err == if SetNeeds(s, f, StringsOf(old(buf[..])), name, len) <= Free(Hdr(old(buf[..]))) then 0
        else -NOSPACE
      ensures err == 0 ==>
        Free(Hdr(buf[..])) == Free(Hdr(old(buf[..]))) - SetNeeds(s, f, StringsOf(old(buf[..])), name, len)
      ensures err != 0 ==> tree == old(tree) && SameContent(old(buf[..]), buf[..])
      ensures err == 0 ==> tree == Plug(d.spot, d.here) && At(buf[..], d.spot, d.here, poff)
      ensures err == 0 ==> StringsOf(buf[..]) == SetStrings(s, f, StringsOf(old(buf[..])), name)
      ensures err == 0 ==>
        d.here.PropCons? && |d.here.val| == len && SlotFor(d, s, f, StringsOf(old(buf[..])), StringsOf(buf[..]), name)
    {
      hide Hdr, Plug, Pre, Block, Enc, StructOf, StringsOf, NamesOk, Align4, RsvOf, At, FindProp;
      var perr := RwProbe(Hdr(buf[..]));
      ProbePasses(buf[..], tree);
      err, poff, d := ResizeProperty(node, name, len, s, f);
      if err == -NOTFOUND {
        err, poff, d := AddProperty(node, name, len, s, f);
      }
    }

    /** The final `memcpy` into the value of a property slot. */
    method FillSlot(poff: int, k: nat, x: seq<byte>, ghost d: Cursor, ghost whole: seq<byte>,
                    ghost s: Spot, ghost f: Forest, ghost strs: seq<byte>, ghost name: seq<byte>)
      returns (ghost kids: Forest)
      requires Valid() && tree == Plug(d.spot, d.here) && d.here.PropCons? && At(buf[..], d.spot, d.here, poff)
      requires k + |x| <= |d.here.val| && Put(d.here.val, k, x) == whole
      requires f.NodeCons? && NamesOk(Plug(s, f), strs) && strs <= StringsOf(buf[..])
      requires SlotFor(d, s, f, strs, StringsOf(buf[..]), name)
      modifies this, buf
      ensures Valid() && SameFrame(old(buf[..]), buf[..]) && StringsOf(buf[..]) == StringsOf(old(buf[..]))
        && Hdr(buf[..]) == Hdr(old(buf[..]))
      ensures tree == Plug(s, NodeCons(f.name, f.npad, kids, f.rest)) && NamesOk(kids, StringsOf(buf[..]))
      ensures Decode(kids, StringsOf(buf[..])) == SetProp(Items(s, f, strs), name, whole)
      ensures Meaning() == WithItems(s, f, strs, SetProp(Items(s, f, strs), name, whole))
    {
      hide Hdr, Put, Plug, Pre, Block, Enc, StructOf, StringsOf, NamesOk, Align4, RsvOf, At, FindProp, Decode, SlotFor;
      ghost var b1 := buf[..];
      AtInStruct(b1, d.spot, d.here, poff);
      PropUnder(b1, d, poff);
      WriteStruct(poff + 12 + k, x);
      WrittenBlob(b1, buf[..], d, poff, k, x);
      tree := Plug(d.spot, PropCons(d.here.nameoff, whole, d.here.pad, d.here.rest));
      kids := SlotFilled(d, s, f, strs, StringsOf(b1), name, whole, d.here.pad);
      ItemsReplaced(s, f, strs, kids, StringsOf(buf[..]), SetProp(Items(s, f, strs), name, whole));
    }

    /**
     `fdt_setprop`: on success the node's items are those of `SetProp` and nothing else in the tree
     changes; otherwise there was no room and the blob means what it meant.
     */
    method Setprop(node: nat, name: seq<byte>, val: seq<byte>, ghost s: Spot, ghost f: Forest)
      returns (err: int, ghost kids: Forest)
      requires Valid() && tree == Plug(s, f) && f.NodeCons? && At(buf[..], s, f, node)
      requires NoNul(name) && |val| <= INT_MAX - 16
      modifies this, buf
      ensures Valid() && SameFrame(old(buf[..]), buf[..])
      ensures err == if SetNeeds(s, f, StringsOf(old(buf[..])), name, |val|) <= Free(Hdr(old(buf[..]))) then 0
        else -NOSPACE
      ensures err == 0 ==>
        Free(Hdr(buf[..])) == Free(Hdr(old(buf[..]))) - SetNeeds(s, f, StringsOf(old(buf[..])), name, |val|)
      ensures err != 0 ==> tree == old(tree) && SameContent(old(buf[..]), buf[..])
      ensures err == 0 ==> StringsOf(buf[..]) == SetStrings(s, f, StringsOf(old(buf[..])), name)
      ensures err == 0 ==> tree == Plug(s, NodeCons(f.name, f.npad, kids, f.rest)) && NamesOk(kids, StringsOf(buf[..]))
      ensures err == 0 ==> Decode(kids, StringsOf(buf[..])) == SetProp(Items(s, f, StringsOf(old(buf[..]))), name, val)
      ensures err == 0 ==> var strs := StringsOf(old(buf[..]));
        Meaning() == WithItems(s, f, strs, SetProp(Items(s, f, strs), name, val))
    {
      hide Hdr, Put, Plug, Pre, Block, Enc, StructOf, StringsOf, NamesOk, Align4, RsvOf, At, FindProp, Decode;
      ghost var strs := StringsOf(buf[..]);
      var poff; ghost var d;
      err, poff, d := SetpropPlaceholder(node, name, |val|, s, f);
      kids := f;
      if err != 0 {
        return;
      }
      PutWhole(d.here.val, val);
      kids := FillSlot(poff, 0, val, d, val, s, f, strs, name);
    }

    /** `fdt_appendprop`. */
    method Appendprop(node: nat, name: seq<byte>, val: seq<byte>, ghost s: Spot, ghost f: Forest)
      returns (err: int, ghost kids: Forest)
      requires Valid() && tree == Plug(s, f) && f.NodeCons? && At(buf[..], s, f, node)
      requires NoNul(name) && |val| <= INT_MAX - 16
      requires forall c :: FindProp(Inside(s, f.name, f.npad, f.rest), f.kids, StringsOf(buf[..]), name) == Some(c) ==>
        |c.here.val| + |val| <= INT_MAX
      modifies this, buf
      ensures Valid() && SameFrame(old(buf[..]), buf[..])
      ensures err == if AppendNeeds(s, f, StringsOf(old(buf[..])), name, |val|) <= Free(Hdr(old(buf[..]))) then 0
        else -NOSPACE
      ensures err == 0 ==>
        Free(Hdr(buf[..])) == Free(Hdr(old(buf[..]))) - AppendNeeds(s, f, StringsOf(old(buf[..])), name, |val|)
      ensures err != 0 ==> tree == old(tree) && SameContent(old(buf[..]), buf[..])
      ensures err == 0 ==> StringsOf(old(buf[..])) <= StringsOf(buf[..])
      ensures err == 0 ==> tree == Plug(s, NodeCons(f.name, f.npad, kids, f.rest))
      ensures err == 0 ==> var strs := StringsOf(old(buf[..]));
        Meaning() == WithItems(s, f, strs, AppendProp(Items(s, f, strs), name, val))
      ensures err == 0 ==> NamesOk(kids, StringsOf(buf[..]))
      ensures err == 0 ==> var t, u := Items(s, f, StringsOf(old(buf[..]))), Decode(kids, StringsOf(buf[..]));
        && PropOf(u, name) == Some(if PropOf(t, name).Some? then PropOf(t, name).value + val else val)
        && (forall other :: other != name ==> PropOf(u, other) == PropOf(t, other)) && Behind(u) == Behind(t)
    {
      hide Hdr, Put, Plug, Pre, Block, Enc, StructOf, StringsOf, NamesOk, Align4, RsvOf, At, FindProp, Decode, Enc32;
      ghost var strs := StringsOf(buf[..]);
      var poff, oldlen := GetProperty(buf[..], node, name, s, f);
      ghost var found := FindProp(Inside(s, f.name, f.npad, f.rest), f.kids, strs, name);
      ghost var d: Cursor;
      InsidePlug(s, f);
      ItemsDecode(s, f, strs);
      FindPropReads(Inside(s, f.name, f.npad, f.rest), f.kids, strs, name);
      kids := f;
      ghost var oldval := [];
      if poff >= 0 {
        oldval := found.value.here.val;
        err, d := ResizeAt(poff, oldlen, oldlen + |val|, found.value);
        if err != 0 {
          return;
        }
        assert SlotFor(d, s, f, strs, StringsOf(buf[..]), name);
      } else {
        oldlen := 0;
        err, poff, d := AddProperty(node, name, |val|, s, f);
        if err != 0 {
          return;
        }
        assert SlotFor(d, s, f, strs, StringsOf(buf[..]), name);
      }
      PutTail(d.here.val, oldlen, val, oldval);
      kids := FillSlot(poff, oldlen, val, d, oldval + val, s, f, strs, name);
      forall other {
        AppendPropReads(Items(s, f, strs), name, val, other);
      }
    }

    /** `fdt_delprop`. */
    method Delprop(node: nat, name: seq<byte>, ghost s: Spot, ghost f: Forest) returns (err: int)
      requires Valid() && tree == Plug(s, f) && f.NodeCons? && At(buf[..], s, f, node)
      modifies this, buf
      ensures Valid() && SameFrame(old(buf[..]), buf[..]) && StringsOf(buf[..]) == StringsOf(old(buf[..]))
      ensures var strs := StringsOf(old(buf[..]));
        err == if PropOf(Items(s, f, strs), name).Some? then 0 else -NOTFOUND
      ensures err != 0 ==> Untouched()
      ensures err == 0 ==>
        tree == Plug(s, NodeCons(f.name, f.npad, DropRaw(f.kids, StringsOf(old(buf[..])), name, 0), f.rest))
      ensures err == 0 ==> var strs := StringsOf(old(buf[..]));
        Meaning() == WithItems(s, f, strs, DropProp(Items(s, f, strs), name))
    {
      hide Hdr, Put, Plug, Pre, Block, Enc, StructOf, StringsOf, NamesOk, Align4, RsvOf, At, FindProp, Decode, DropRaw,
        StructSpliced;
      ghost var b, strs := buf[..], StringsOf(buf[..]);
      var poff, len := GetProperty(buf[..], node, name, s, f);
      ghost var inner := Inside(s, f.name, f.npad, f.rest);
      ItemsDecode(s, f, strs);
      FindPropReads(inner, f.kids, strs, name);
      if poff < 0 {
        return len;
      }
      ghost var c := FindProp(inner, f.kids, strs, name).value;
      AtInStruct(b, c.spot, c.here, poff);
      FindPropDrops(inner, f.kids, strs, name, 0);
      InsidePlug(s, f);
      CellTokens(b, c, poff);
      CutBlob(b, c.spot, c.here, c.here.rest, [Head(c.spot, c.here)], poff);
      err := SpliceStruct(poff, 12 + Align4(len), 0);
      ghost var kids := DropRaw(f.kids, strs, name, 0);
      InsidePlug(s, NodeCons(f.name, f.npad, kids, f.rest));
      tree := Plug(c.spot, c.here.rest);
      ItemsReplaced(s, f, strs, kids, strs, DropProp(Items(s, f, strs), name));
    }

    /** `fdt_set_name`. */
    method SetName(node: nat, name: seq<byte>, ghost s: Spot, ghost f: Forest) returns (err: int, ghost g: Forest)
      requires Valid() && tree == Plug(s, f) && f.NodeCons? && At(buf[..], s, f, node) && NoNul(name)
      modifies this, buf
      ensures Valid() && SameFrame(old(buf[..]), buf[..]) && StringsOf(buf[..]) == StringsOf(old(buf[..]))
      ensures err == if Align4(|name| + 1) - Align4(|f.name| + 1) <= Free(Hdr(old(buf[..]))) then 0 else -NOSPACE
      ensures err != 0 ==> Untouched()
      ensures err == 0 ==> g.NodeCons? && g.name == name && g.kids == f.kids && g.rest == f.rest && tree == Plug(s, g)
      ensures err == 0 ==> var strs := StringsOf(old(buf[..]));
        Meaning() == WithTail(s, f, strs, TNode(name, Items(s, f, strs), Rest(s, f, strs)))
    {
      hide Hdr, Put, Plug, Pre, Block, Enc, StructOf, StringsOf, NamesOk, Align4, RsvOf, At, Decode, StructSpliced,
        AllValid, Off, HeaderOk;
      ghost var b, strs := buf[..], StringsOf(buf[..]);
      g := f;
      AtInStruct(b, s, f, node);
      var oldname := GetName(buf[..], node, s, f);
      NodeTokens(b, s, f, node);
      err := SpliceStruct(node + 4, Align4(|oldname| + 1), Align4(|name| + 1));
      if err != 0 {
        return;
      }
      StructSplicedParts(b, node + 4, Align4(|oldname| + 1), Align4(|name| + 1));
      WriteStruct(node + 4, name + [0]);
      g := NodeCons(name, Storage(b, node + 4, Align4(|name| + 1))[|name| + 1..], f.kids, f.rest);
      RenamedBlob(b, buf[..], s, f, node, name);
      tree := Plug(s, g);
      TailReplaced(s, f, strs, g);
    }

    /**
     `fdt_add_subnode_namelen`: an empty node after the parent's properties, unless a subnode already
     answers to the name.
     */
    method AddSubnode(parent: nat, name: seq<byte>, ghost s: Spot, ghost f: Forest) returns (offset: int,
        ghost d: Cursor)
      requires Valid() && tree == Plug(s, f) && f.NodeCons? && At(buf[..], s, f, parent) && NoNul(name)
      modifies this, buf
      ensures Valid() && SameFrame(old(buf[..]), buf[..]) && StringsOf(buf[..]) == StringsOf(old(buf[..]))
      ensures var found := FindChild(Inside(s, f.name, f.npad, f.rest), f.kids, name);
        offset < 0 ==> offset == if found.Some? then -EXISTS else -NOSPACE
      ensures var cs := Subnodes(Inside(s, f.name, f.npad, f.rest), f.kids);
        offset == -EXISTS <==> exists i :: 0 <= i < |cs| && Answers(cs[i].here.name, name)
      ensures var found := FindChild(Inside(s, f.name, f.npad, f.rest), f.kids, name);
        offset >= 0 <==> (found.None? && 8 + Align4(|name| + 1) <= Free(Hdr(old(buf[..]))))
      ensures offset < 0 ==> Untouched()
      ensures offset >= 0 ==> At(buf[..], d.spot, d.here, offset) && tree == Plug(d.spot, d.here)
      ensures offset >= 0 ==> d == NewNode(s, f, name)
      ensures offset >= 0 ==> Free(Hdr(buf[..])) == Free(Hdr(old(buf[..]))) - (8 + Align4(|name| + 1))
      ensures offset >= 0 ==> tree == Plug(s, NodeCons(f.name, f.npad, AddRaw(f.kids, name, d.here.npad, Nil), f.rest))
      ensures offset >= 0 ==> var strs := StringsOf(old(buf[..]));
        Meaning() == WithItems(s, f, strs, AddChild(Items(s, f, strs), name, TNil))
    {
      hide Hdr, Put, Plug, Pre, Block, Enc, StructOf, StringsOf, NamesOk, Align4, RsvOf, At, Decode, StructSpliced,
        FindChild, AddRaw, Enc32, Answers;
      ghost var b, strs := buf[..], StringsOf(buf[..]);
      ghost var inner := Inside(s, f.name, f.npad, f.rest);
      FindChildFirst(inner, f.kids, name);
      d := Cursor(s, f);
      offset := SubnodeOffset(buf[..], parent, name, s, f);
      if offset >= 0 {
        return -EXISTS, d;
      } else if offset != -NOTFOUND {
        return;
      }
      offset := SkipProps(buf[..], parent, s, f);
      ghost var c := InsertAt(inner, f.kids);
      InsidePlug(s, f);
      AtInStruct(b, c.spot, c.here, offset);
      var nodelen := 4 + Align4(|name| + 1) + 4;
      var err := SpliceStruct(offset, 0, nodelen);
      if err != 0 {
        return err, d;
      }
      StructSplicedParts(b, offset, 0, nodelen);
      WriteStruct(offset, Enc32(FDT_BEGIN_NODE));
      WriteStruct(offset + 4, Zeros(Align4(|name| + 1)));
      WriteStruct(offset + 4, name);
      WriteStruct(offset + nodelen - 4, Enc32(FDT_END_NODE));
      d := NewNode(s, f, name);
      NodeAddedBlob(b, buf[..], c, offset, name);
      tree := Plug(d.spot, d.here);
      ItemsDecode(s, f, strs);
      DecodeNil(strs);
      InsertAdds(inner, f.kids, strs, name, d.here.npad, Nil);
      InsidePlug(s, NodeCons(f.name, f.npad, AddRaw(f.kids, name, d.here.npad, Nil), f.rest));
      ItemsReplaced(s, f, strs, AddRaw(f.kids, name, d.here.npad, Nil), strs, AddChild(Items(s, f, strs), name, TNil));
    }

    /** `fdt_del_node`. */
    method DelNode(node: nat, ghost s: Spot, ghost f: Forest) returns (err: int)
      requires Valid() && tree == Plug(s, f) && f.NodeCons? && At(buf[..], s, f, node)
      modifies this, buf
      ensures err == 0 && Valid() && SameFrame(old(buf[..]), buf[..]) && StringsOf(buf[..]) == StringsOf(old(buf[..]))
      ensures tree == Plug(s, f.rest)
      ensures var strs := StringsOf(old(buf[..])); Meaning() == WithTail(s, f, strs, Rest(s, f, strs))
    {
      hide Hdr, Put, Plug, Pre, Block, Enc, StructOf, StringsOf, NamesOk, Align4, RsvOf, At, Decode, StructSpliced;
      ghost var b, strs := buf[..], StringsOf(buf[..]);
      var endoffset := NodeEndOffset(buf[..], node, s, f);
      NodeSpan(b, s, f, node, endoffset);
      CutBlob(b, s, f, f.rest, NodeToks(f), node);
      err := SpliceStruct(node, endoffset - node, 0);
      tree := Plug(s, f.rest);
      TailReplaced(s, f, strs, f.rest);
    }
  }

  /** A string appended to the strings is read at their old end. */
  lemma AddedRead(b: seq<byte>, name: seq<byte>)
    requires Sound(b) && Ordered(Hdr(b)) && NoNul(name) && DataSize(Hdr(b)) + |name| + 1 <= Hdr(b).totalsize
    ensures var c := StringAdded(b, name + [0]); Sound(c) && StrAt(StringsOf(c), Hdr(b).sizeStrings) == Some(name)
  {
    hide Hdr, StringAdded, StrAt, Ordered;
    StringAddedParts(b, name + [0]);
    var strs, k := StringsOf(StringAdded(b, name + [0])), Hdr(b).sizeStrings;
    assert strs[k..k + |name| + 1] == name + [0];
    StrAtIs(strs, k, name);
  }

  /** Splices behind the header leave it alone. */
  lemma SplicedHdr(b: seq<byte>, end: nat, p: nat, oldlen: nat, newlen: nat)
    requires HEADER_SIZE <= p && p + oldlen <= end <= |b| && end - oldlen + newlen <= |b|
    ensures Hdr(Spliced(b, end, p, oldlen, newlen)) == Hdr(b)
  {
    hide Hdr, Spliced;
    var c := Spliced(b, end, p, oldlen, newlen);
    SplicedSlices(b, end, p, oldlen, newlen, 0, HEADER_SIZE);
    assert c[..HEADER_SIZE] == c[0..HEADER_SIZE] && b[..HEADER_SIZE] == b[0..HEADER_SIZE];
    HdrKept(b, c);
  }

  /** Growing behind the last byte moves nothing. */
  lemma SplicedNothing(b: seq<byte>, end: nat, len: nat)
    requires end + len <= |b|
    ensures Spliced(b, end, end, 0, len) == b
  {
  }

  /** What stands in the blob at offset `q` of the structure block, wherever that block ends. */
  ghost function Storage(b: seq<byte>, q: nat, n: nat): (r: seq<byte>)
    requires Sound(b) && Hdr(b).offStruct + q + n <= |b|
    ensures |r| == n
  {
    b[Hdr(b).offStruct + q..Hdr(b).offStruct + q + n]
  }

  lemma ResizedBlob(b: seq<byte>, b2: seq<byte>, c: Cursor, q: nat, len: nat)
    requires Editable(b, Plug(c.spot, c.here)) && c.here.PropCons? && At(b, c.spot, c.here, q)
    requires len <= INT_MAX && Hdr(b).offStruct + q + 12 + Align4(len) <= |b|
    requires Sound(b2) && Ordered(Hdr(b2)) && StringsOf(b2) == StringsOf(b)
    requires var st, n := StructOf(b), Align4(|c.here.val|);
      q + 12 + n <= |st| &&
      StructOf(b2) == Put(st[..q + 12] + Storage(b, q + 12, Align4(len)) + st[q + 12 + n..], q + 4, Enc32(len))
    ensures var gap := Storage(b, q + 12, Align4(len));
      var g := PropCons(c.here.nameoff, gap[..len], gap[len..], c.here.rest);
      && Editable(b2, Plug(c.spot, g)) && At(b2, c.spot, g, q)
  {
    hide Hdr, Put, Enc32, Plug, Pre, Block, Enc, StructOf, StringsOf, NamesOk, Align4, At, Storage, Editable, AllValid,
      Off;
    EditableSound(b, Plug(c.spot, c.here));
    var gap := Storage(b, q + 12, Align4(len));
    ResizedToken(b, b2, c, q, len);
    PropSwapped(b, b2, c, Cursor(c.spot, PropCons(c.here.nameoff, gap[..len], gap[len..], c.here.rest)), q);
  }

  lemma ResizedToken(b: seq<byte>, b2: seq<byte>, c: Cursor, q: nat, len: nat)
    requires Editable(b, Plug(c.spot, c.here)) && c.here.PropCons? && At(b, c.spot, c.here, q)
    requires len <= INT_MAX && Sound(b) && Sound(b2) && Hdr(b).offStruct + q + 12 + Align4(len) <= |b|
    requires var st, n := StructOf(b), Align4(|c.here.val|);
      q + 12 + n <= |st| &&
      StructOf(b2) == Put(st[..q + 12] + Storage(b, q + 12, Align4(len)) + st[q + 12 + n..], q + 4, Enc32(len))
    ensures var t, gap := Head(c.spot, c.here), Storage(b, q + 12, Align4(len));
      var t2 := Prop(c.here.nameoff, gap[..len], gap[len..]);
      && t2.Valid() && q + t.Size() <= |StructOf(b)|
        && StructOf(b2) == StructOf(b)[..q] + t2.Bytes() + StructOf(b)[q + t.Size()..]
  {
    hide Hdr, Put, Enc32, Plug, Pre, Block, Enc, StructOf, Align4, At, Storage, Editable;
    PropUnder(b, c, q);
    PropResized(StructOf(b), StructOf(b2), q, Head(c.spot, c.here), Storage(b, q + 12, Align4(len)), len);
  }

  /** Grown or shrunk storage still begins with the old value. */
  lemma ValueKept(b: seq<byte>, c: Cursor, q: nat, n: nat)
    requires c.here.PropCons? && At(b, c.spot, c.here, q) && Hdr(b).offStruct + q + 12 + n <= |b|
    ensures forall i :: 0 <= i < n && i < |c.here.val| ==> Storage(b, q + 12, n)[i] == c.here.val[i]
  {
    hide Hdr, Plug, Pre, Block, Enc, StructOf, NamesOk, Align4;
    PropWords(b, c.spot, c.here, q);
    forall i | 0 <= i < n && i < |c.here.val| ensures Storage(b, q + 12, n)[i] == c.here.val[i] {
      assert Storage(b, q + 12, n)[i] == b[Hdr(b).offStruct + q + 12 + i];
    }
  }

  /** The token bytes of the property under a cursor. */
  lemma PropUnder(b: seq<byte>, c: Cursor, poff: nat)
    requires Editable(b, Plug(c.spot, c.here)) && c.here.PropCons? && At(b, c.spot, c.here, poff)
    ensures var t := Head(c.spot, c.here);
      && t.Valid() && poff + t.Size() <= |StructOf(b)| == Hdr(b).sizeStruct
      && StructOf(b)[poff..poff + t.Size()] == t.Bytes()
  {
    hide Hdr, Plug, Pre, Block, Enc;
    Under(StructOf(b), c.spot, c.here);
  }

  /** A property token replaced by another one. */
  lemma PropSwapped(b: seq<byte>, b2: seq<byte>, c: Cursor, d: Cursor, q: nat)
    requires Editable(b, Plug(c.spot, c.here)) && c.here.PropCons? && At(b, c.spot, c.here, q)
    requires d.spot == c.spot && d.here.PropCons? && d.here.nameoff == c.here.nameoff && d.here.rest == c.here.rest
    requires Sound(b2) && Ordered(Hdr(b2)) && StringsOf(b2) == StringsOf(b)
    requires var t, t2 := Head(c.spot, c.here), Head(d.spot, d.here);
      t2.Valid() && q + t.Size() <= |StructOf(b)|
        && StructOf(b2) == StructOf(b)[..q] + t2.Bytes() + StructOf(b)[q + t.Size()..]
    ensures Editable(b2, Plug(d.spot, d.here)) && At(b2, d.spot, d.here, q)
  {
    hide Hdr, Plug, Pre, Block, Enc, StructOf, StringsOf, AllValid;
    var t, t2 := Head(c.spot, c.here), Head(d.spot, d.here);
    ValidParts(c.spot, c.here);
    EncOne(t);
    EncOne(t2);
    DecodePlug(c.spot, c.here, StringsOf(b));
    EditedBlob(b, b2, c.spot, c.here, d.here, [t], [t2], Flat(c.here.rest));
  }

  /** Bytes a new property takes: its token and, when the name is not there yet, its name. */
  ghost function AddNeeds(strs: seq<byte>, name: seq<byte>, len: nat): nat {
    12 + Align4(len) + if exists i :: OccursAt(strs, name, i) then 0 else |name| + 1
  }

  /** The strings block once the name is in it. */
  ghost function AddStrings(strs: seq<byte>, name: seq<byte>): (r: seq<byte>)
    ensures strs <= r
  {
    if exists i :: OccursAt(strs, name, i) then strs else strs + (name + [0])
  }

  /** Same structure block, same strings or more: the forest is still there. */
  lemma MoreStrings(b: seq<byte>, c: seq<byte>, t: Forest)
    requires Editable(b, t) && Sound(c) && Ordered(Hdr(c))
    requires StructOf(c) == StructOf(b) && StringsOf(b) <= StringsOf(c)
    ensures Editable(c, t) && Decode(t, StringsOf(c)) == Decode(t, StringsOf(b))
  {
    DecodeMoreStrings(t, StringsOf(b), StringsOf(c));
  }

  lemma EditableAt(b: seq<byte>, s: Spot, f: Forest)
    requires Editable(b, Plug(s, f))
    ensures AllValid(Pre(s)) && At(b, s, f, Off(s)) && |StructOf(b)| == Hdr(b).sizeStruct
  {
    hide Hdr, Plug, Pre, Block, Enc;
    ValidParts(s, f);
  }

  /** Edits below a node leave the node's own offset valid. */
  lemma StillAt(b: seq<byte>, c: seq<byte>, s: Spot, f: Forest, g: Forest, target: int)
    requires At(b, s, f, target) && Editable(c, Plug(s, g))
    ensures At(c, s, g, target)
  {
    hide Hdr, Plug, Pre, Block, Enc;
    EditableAt(c, s, g);
  }

  /** The first item of a node, in a blob carrying the same forest. */
  lemma InsideAt(b0: seq<byte>, b: seq<byte>, s: Spot, f: Forest, node: nat, next: nat)
    requires Editable(b, Plug(s, f)) && f.NodeCons? && At(b0, s, f, node)
    requires next == node + Head(s, f).Size()
    ensures var inner := Inside(s, f.name, f.npad, f.rest);
      && Plug(inner, f.kids) == Plug(s, f) && At(b, inner, f.kids, next)
  {
    hide Hdr, Pre, Block, Enc;
    EditableAt(b, s, f);
    AtNext(b, s, f, node);
  }

  lemma InsidePlug(s: Spot, f: Forest)
    requires f.NodeCons?
    ensures Plug(Inside(s, f.name, f.npad, f.rest), f.kids) == Plug(s, f)
  {
  }

  lemma AtInStruct(b: seq<byte>, s: Spot, f: Forest, q: int)
    requires At(b, s, f, q)
    ensures 0 <= q < |StructOf(b)| == Hdr(b).sizeStruct
  {
    hide Hdr, Pre, Block, Enc;
    AtNext(b, s, f, q);
  }

  /** Header, structure and strings agree, whatever the free bytes hold. */
  ghost predicate SameContent(b: seq<byte>, c: seq<byte>)
    requires Sound(b) && Sound(c)
  {
    Hdr(c) == Hdr(b) && StructOf(c) == StructOf(b) && StringsOf(c) == StringsOf(b)
  }

  /** A fresh property in front of the items `f`. */
  lemma CreatedBlob(b: seq<byte>, b2: seq<byte>, s: Spot, f: Forest, q: nat, nameoff: u32, len: nat)
    requires Editable(b, Plug(s, f)) && At(b, s, f, q) && len <= INT_MAX
    requires q <= |StructOf(b)| && Hdr(b).offStruct + q + 12 + Align4(len) <= |b|
    requires Sound(b2) && Ordered(Hdr(b2)) && StringsOf(b2) == StringsOf(b) && StrAt(StringsOf(b), nameoff).Some?
    requires var st := StructOf(b); var gap := Storage(b, q, 12 + Align4(len));
      StructOf(b2)
        == Put(Put(Put(st[..q] + gap + st[q..], q, Enc32(FDT_PROP)), q + 8, Enc32(nameoff)), q + 4, Enc32(len))
    ensures var gap := Storage(b, q, 12 + Align4(len));
      var g := PropCons(nameoff, gap[12..12 + len], gap[12 + len..], f);
      Editable(b2, Plug(s, g)) && At(b2, s, g, q)
  {
    hide Hdr, Put, Enc32, Plug, Pre, Block, StructOf, StringsOf, Align4, Storage;
    var gap := Storage(b, q, 12 + Align4(len));
    var g := PropCons(nameoff, gap[12..12 + len], gap[12 + len..], f);
    assert Head(s, g) == Prop(nameoff, gap[12..12 + len], gap[12 + len..]);
    PropCreated(StructOf(b), q, gap, nameoff, len);
    EncOne(Head(s, g));
    DecodePlug(s, f, StringsOf(b));
    EditedBlob(b, b2, s, f, g, [], [Head(s, g)], Flat(f));
  }

  lemma ProbePasses(b: seq<byte>, t: Forest)
    requires Editable(b, t)
    ensures RwProbe(Hdr(b)) == 0
  {
    hide Hdr, Block, Enc, NamesOk;
  }

  /** Bytes `fdt_setprop` needs behind the strings block. */
  ghost function SetNeeds(s: Spot, f: Forest, strs: seq<byte>, name: seq<byte>, len: nat): int
    requires f.NodeCons?
  {
    match FindProp(Inside(s, f.name, f.npad, f.rest), f.kids, strs, name)
    case Some(c) => Align4(len) - Align4(|c.here.val|)
    case None => AddNeeds(strs, name, len)
  }

  /** In terms of the decoded node: what a new length takes, or a new property and its name if no string reads it. */
  lemma SetNeedsMeans(s: Spot, f: Forest, strs: seq<byte>, name: seq<byte>, len: nat)
    requires f.NodeCons? && NamesOk(f.kids, strs) && 0 !in name
    ensures SetNeeds(s, f, strs, name, len) ==
      match PropOf(Decode(f.kids, strs), name)
      case Some(v) => Align4(len) - Align4(|v|)
      case None => 12 + Align4(len) + if exists i :: StrAt(strs, i) == Some(name) then 0 else |name| + 1
  {
    hide Align4, StrAt, OccursAt, FindProp, PropOf, Decode;
    FindPropReads(Inside(s, f.name, f.npad, f.rest), f.kids, strs, name);
    forall i ensures OccursAt(strs, name, i) <==> StrAt(strs, i) == Some(name) {
      OccursMeans(strs, name, i);
    }
    if exists i :: StrAt(strs, i) == Some(name) {
      var i :| StrAt(strs, i) == Some(name);
      assert OccursAt(strs, name, i);
    }
  }

  /** The strings block behind `fdt_setprop`. */
  ghost function SetStrings(s: Spot, f: Forest, strs: seq<byte>, name: seq<byte>): (r: seq<byte>)
    requires f.NodeCons?
    ensures strs <= r
  {
    if FindProp(Inside(s, f.name, f.npad, f.rest), f.kids, strs, name).Some? then strs else AddStrings(strs, name)
  }

  /** Bytes `fdt_appendprop` needs there. */
  ghost function AppendNeeds(s: Spot, f: Forest, strs: seq<byte>, name: seq<byte>, len: nat): int
    requires f.NodeCons?
  {
    match FindProp(Inside(s, f.name, f.npad, f.rest), f.kids, strs, name)
    case Some(c) => Align4(|c.here.val| + len) - Align4(|c.here.val|)
    case None => AddNeeds(strs, name, len)
  }

  /** `d` is the cell of the property `name` in the node: the one it had, or a new one in front. */
  ghost predicate SlotFor(d: Cursor, s: Spot, f: Forest, strs: seq<byte>, more: seq<byte>, name: seq<byte>)
    requires f.NodeCons? && d.here.PropCons?
  {
    match FindProp(Inside(s, f.name, f.npad, f.rest), f.kids, strs, name)
    case Some(c) => more == strs && d.spot == c.spot && d.here.nameoff == c.here.nameoff && d.here.rest == c.here.rest
    case None =>
      && d.spot == Inside(s, f.name, f.npad, f.rest) && d.here.rest == f.kids
      && StrAt(more, d.here.nameoff) == Some(name)
  }

  /** Filling the cell with a value is setting the property. */
  lemma SlotFilled(d: Cursor, s: Spot, f: Forest, strs: seq<byte>, more: seq<byte>, name: seq<byte>, val: seq<byte>,
      pad: seq<byte>)
    returns (kids: Forest)
    requires f.NodeCons? && d.here.PropCons? && NamesOk(Plug(s, f), strs) && strs <= more
    requires SlotFor(d, s, f, strs, more, name)
    ensures Plug(d.spot, PropCons(d.here.nameoff, val, pad, d.here.rest))
      == Plug(s, NodeCons(f.name, f.npad, kids, f.rest))
    ensures NamesOk(kids, more) && Decode(kids, more) == SetProp(Items(s, f, strs), name, val)
  {
    var inner := Inside(s, f.name, f.npad, f.rest);
    DecodePlug(s, f, strs);
    FindPropReads(inner, f.kids, strs, name);
    if FindProp(inner, f.kids, strs, name).Some? {
      FindPropReplaces(inner, f.kids, strs, name, val, pad);
      kids := ReplaceRaw(f.kids, strs, name, val, pad);
    } else {
      DecodeMoreStrings(f.kids, strs, more);
      kids := PropCons(d.here.nameoff, val, pad, f.kids);
    }
  }

  /** Part of a value overwritten in place. */
  lemma WrittenBlob(b: seq<byte>, b2: seq<byte>, c: Cursor, q: nat, k: nat, x: seq<byte>)
    requires Editable(b, Plug(c.spot, c.here)) && c.here.PropCons? && At(b, c.spot, c.here, q)
    requires k + |x| <= |c.here.val|
    requires Sound(b2) && Ordered(Hdr(b2)) && StringsOf(b2) == StringsOf(b)
    requires q + 12 + k + |x| <= |StructOf(b)| && StructOf(b2) == Put(StructOf(b), q + 12 + k, x)
    ensures var g := PropCons(c.here.nameoff, Put(c.here.val, k, x), c.here.pad, c.here.rest);
      Editable(b2, Plug(c.spot, g)) && At(b2, c.spot, g, q)
  {
    hide Hdr, Put, Plug, Pre, Block, Enc, StructOf, StringsOf, NamesOk, Align4, At;
    var g := PropCons(c.here.nameoff, Put(c.here.val, k, x), c.here.pad, c.here.rest);
    PropUnder(b, c, q);
    PropWritten(StructOf(b), q, Head(c.spot, c.here), k, x);
    PropSwapped(b, b2, c, Cursor(c.spot, g), q);
  }

  lemma PutWhole(x: seq<byte>, y: seq<byte>)
    requires |x| == |y|
    ensures Put(x, 0, y) == y
  {
  }

  lemma PutTail(x: seq<byte>, k: nat, y: seq<byte>, was: seq<byte>)
    requires |x| == k + |y| && k == |was| && forall i :: 0 <= i < k ==> x[i] == was[i]
    ensures Put(x, k, y) == was + y
  {
  }

  /** A run of tokens cut out of the structure block. */
  lemma CutBlob(b: seq<byte>, s: Spot, f: Forest, f2: Forest, xs: seq<Token>, q: nat)
    requires Editable(b, Plug(s, f)) && At(b, s, f, q) && Flat(f) == xs + Flat(f2) && AllValid(xs)
    requires q + |Enc(xs)| <= Hdr(b).sizeStruct && NamesOk(f2, StringsOf(b))
    ensures var b2 := StructSpliced(b, q, |Enc(xs)|, 0);
      && Sound(b2) && Ordered(Hdr(b2)) && SameFrame(b, b2) && StringsOf(b2) == StringsOf(b)
      && Editable(b2, Plug(s, f2))
  {
    hide Hdr, Plug, Pre, Block, Flat, StructOf, StringsOf, NamesOk, StructSpliced, Enc;
    AtInStruct(b, s, f, q);
    StructSplicedParts(b, q, |Enc(xs)|, 0);
    EmptyEnc();
    EditedBlob(b, StructSpliced(b, q, |Enc(xs)|, 0), s, f, f2, xs, [], Flat(f2));
  }

  lemma EmptyEnc()
    ensures AllValid([]) && Enc([]) == []
  {
  }

  /** Where the property cell ends. */
  lemma CellTokens(b: seq<byte>, c: Cursor, poff: nat)
    requires Editable(b, Plug(c.spot, c.here)) && c.here.PropCons? && At(b, c.spot, c.here, poff)
    ensures var xs := [Head(c.spot, c.here)];
      && AllValid(xs) && |Enc(xs)| == 12 + Align4(|c.here.val|) && poff + |Enc(xs)| <= Hdr(b).sizeStruct
      && Flat(c.here) == xs + Flat(c.here.rest) && NamesOk(c.here.rest, StringsOf(b))
  {
    hide Hdr, Plug, Pre, Block, StructOf, StringsOf;
    PropUnder(b, c, poff);
    EncOne(Head(c.spot, c.here));
    DecodePlug(c.spot, c.here, StringsOf(b));
  }

  /** The decoded items after the node under the cursor. */
  ghost function Rest(s: Spot, f: Forest, strs: seq<byte>): Tree
    requires f.NodeCons? && NamesOk(Plug(s, f), strs)
  {
    ItemsDecode(s, f, strs);
    Decode(f.rest, strs)
  }

  lemma TailReplaced(s: Spot, f: Forest, strs: seq<byte>, g: Forest)
    requires f.NodeCons? && NamesOk(Plug(s, f), strs)
    requires g == f.rest || (g.NodeCons? && g.kids == f.kids && g.rest == f.rest)
    ensures NamesOk(g, strs) && NamesOk(Plug(s, g), strs)
    ensures Decode(Plug(s, g), strs) == WithTail(s, f, strs, Decode(g, strs))
    ensures g == f.rest ==> Decode(g, strs) == Rest(s, f, strs)
    ensures g != f.rest ==> Decode(g, strs) == TNode(g.name, Items(s, f, strs), Rest(s, f, strs))
  {
    hide Plug;
    DecodePlug(s, f, strs);
    DecodePlug(s, g, strs);
  }

  /** The tokens of a node, from its BEGIN_NODE to its END_NODE. */
  function NodeToks(f: Forest): seq<Token>
    requires f.NodeCons?
  {
    [BeginNode(f.name, f.npad)] + Flat(f.kids) + [EndNode]
  }

  lemma NodeTokens(b: seq<byte>, s: Spot, f: Forest, node: nat)
    requires Editable(b, Plug(s, f)) && f.NodeCons? && At(b, s, f, node)
    ensures Head(s, f).Valid() && node + 4 + Align4(|f.name| + 1) <= Hdr(b).sizeStruct == |StructOf(b)|
    ensures StructOf(b)[node..node + Head(s, f).Size()] == Head(s, f).Bytes()
  {
    hide Hdr, Plug, Pre, Block, Enc;
    Under(StructOf(b), s, f);
  }

  lemma RenamedBlob(b: seq<byte>, b2: seq<byte>, s: Spot, f: Forest, q: nat, name: seq<byte>)
    requires Editable(b, Plug(s, f)) && f.NodeCons? && At(b, s, f, q) && NoNul(name)
    requires Hdr(b).offStruct + q + 4 + Align4(|name| + 1) <= |b|
    requires Sound(b2) && Ordered(Hdr(b2)) && StringsOf(b2) == StringsOf(b)
    requires var st, n := StructOf(b), Align4(|f.name| + 1);
      q + 4 + n <= |st| &&
      StructOf(b2) == Put(st[..q + 4] + Storage(b, q + 4, Align4(|name| + 1)) + st[q + 4 + n..], q + 4, name + [0])
    ensures var g := NodeCons(name, Storage(b, q + 4, Align4(|name| + 1))[|name| + 1..], f.kids, f.rest);
      Editable(b2, Plug(s, g))
  {
    hide Hdr, Put, Enc32, Plug, Pre, Block, StructOf, StringsOf, Align4, Storage, Flat, Editable, Enc, AllValid, Off,
      At;
    EditableSound(b, Plug(s, f));
    var gap := Storage(b, q + 4, Align4(|name| + 1));
    var g := NodeCons(name, gap[|name| + 1..], f.kids, f.rest);
    RenamedToken(b, b2, s, f, q, name);
    NodeSwapped(b, b2, s, f, g, q);
  }

  lemma RenamedToken(b: seq<byte>, b2: seq<byte>, s: Spot, f: Forest, q: nat, name: seq<byte>)
    requires Editable(b, Plug(s, f)) && f.NodeCons? && At(b, s, f, q) && NoNul(name)
    requires Sound(b) && Sound(b2) && Hdr(b).offStruct + q + 4 + Align4(|name| + 1) <= |b|
    requires var st, n := StructOf(b), Align4(|f.name| + 1);
      q + 4 + n <= |st| &&
      StructOf(b2) == Put(st[..q + 4] + Storage(b, q + 4, Align4(|name| + 1)) + st[q + 4 + n..], q + 4, name + [0])
    ensures var t, t2 := Head(s, f), BeginNode(name, Storage(b, q + 4, Align4(|name| + 1))[|name| + 1..]);
      && t2.Valid() && q + t.Size() <= |StructOf(b)|
        && StructOf(b2) == StructOf(b)[..q] + t2.Bytes() + StructOf(b)[q + t.Size()..]
  {
    hide Hdr, Put, Enc32, Plug, Pre, Block, StructOf, StringsOf, Align4, Storage, Flat, Editable, Enc, AllValid, Off,
      At;
    NodeTokens(b, s, f, q);
    NodeRenamed(StructOf(b), StructOf(b2), q, Head(s, f), Storage(b, q + 4, Align4(|name| + 1)), name);
  }

  /** A BEGIN_NODE token replaced by another one. */
  lemma NodeSwapped(b: seq<byte>, b2: seq<byte>, s: Spot, f: Forest, g: Forest, q: nat)
    requires Editable(b, Plug(s, f)) && f.NodeCons? && At(b, s, f, q)
    requires g.NodeCons? && g.kids == f.kids && g.rest == f.rest
    requires Sound(b2) && Ordered(Hdr(b2)) && StringsOf(b2) == StringsOf(b)
    requires var t, t2 := Head(s, f), Head(s, g);
      t2.Valid() && q + t.Size() <= |StructOf(b)|
        && StructOf(b2) == StructOf(b)[..q] + t2.Bytes() + StructOf(b)[q + t.Size()..]
    ensures Editable(b2, Plug(s, g))
  {
    hide Hdr, Plug, Pre, Block, StructOf, StringsOf, Flat, Align4, Head, Enc, Decode, AllValid, At, Sound, Ordered;
    var t, t2, ys := Head(s, f), Head(s, g), Flat(f.kids) + [EndNode] + Flat(f.rest);
    AtPlace(b, s, f, q);
    EditableParts(b, s, f);
    ValidParts(s, f);
    EncOne(t);
    EncOne(t2);
    DecodePlug(s, f, StringsOf(b));
    FlatHead(s, f);
    FlatHead(s, g);
    EditedBlob(b, b2, s, f, g, [t], [t2], ys);
  }

  lemma AtPlace(b: seq<byte>, s: Spot, f: Forest, q: int)
    requires At(b, s, f, q)
    ensures AllValid(Pre(s)) && q == Off(s)
  {
  }

  lemma EditableParts(b: seq<byte>, s: Spot, f: Forest)
    requires Editable(b, Plug(s, f))
    ensures Sound(b) && AllValid(Block(Plug(s, f))) && NamesOk(Plug(s, f), StringsOf(b))
  {
  }

  lemma FlatHead(s: Spot, f: Forest)
    requires f.NodeCons?
    ensures Flat(f) == [Head(s, f)] + (Flat(f.kids) + [EndNode] + Flat(f.rest))
  {
  }

  lemma EditableSound(b: seq<byte>, t: Forest)
    requires Editable(b, t)
    ensures Sound(b) && Ordered(Hdr(b)) && NamesOk(t, StringsOf(b)) && |StructOf(b)| == Hdr(b).sizeStruct
  {
  }

  /** The cursor of the node that `fdt_add_subnode` creates. */
  function NewNode(s: Spot, f: Forest, name: seq<byte>): Cursor
    requires f.NodeCons?
  {
    var c := InsertAt(Inside(s, f.name, f.npad, f.rest), f.kids);
    Cursor(c.spot, NodeCons(name, Zeros(Align4(|name| + 1) - |name| - 1), Nil, c.here))
  }

  /** The token that the skip in `fdt_add_subnode_namelen` stops at. */
  method SkipProps(b: seq<byte>, parent: nat, ghost s: Spot, ghost f: Forest) returns (offset: int)
    requires f.NodeCons? && At(b, s, f, parent)
    ensures var c := InsertAt(Inside(s, f.name, f.npad, f.rest), f.kids); At(b, c.spot, c.here, offset)
  {
    hide Hdr, Plug, Pre, Block, Enc, StructOf, NextTagAt, Holds, Off;
    AtNext(b, s, f, parent);
    var tag, nextoffset := NextTag(b, parent);
    ghost var cs, cf := Inside(s, f.name, f.npad, f.rest), f.kids;
    ghost var target := InsertAt(cs, cf);
    offset := nextoffset;
    tag := FDT_PROP;
    while tag == FDT_PROP || tag == FDT_NOP
      invariant !AtTop(cs) && InsertAt(cs, cf) == target
      invariant tag == FDT_PROP || tag == FDT_NOP ==> At(b, cs, cf, nextoffset)
      invariant !(tag == FDT_PROP || tag == FDT_NOP) ==> At(b, target.spot, target.here, offset)
      decreases tag == FDT_PROP || tag == FDT_NOP, cf
    {
      offset := nextoffset;
      AtNext(b, cs, cf, offset);
      tag, nextoffset := NextTag(b, offset);
      if tag == FDT_PROP || tag == FDT_NOP {
        cs, cf := Next(cs, cf).spot, Next(cs, cf).here;
      }
    }
  }

  lemma FourWrites(gap: seq<byte>, name: seq<byte>)
    requires |gap| == |EmptyNode(name)|
    ensures var n := 4 + Align4(|name| + 1) + 4;
      && |gap| == n
      && Put(Put(Put(Put(gap, 0, Enc32(FDT_BEGIN_NODE)), 4, Zeros(Align4(|name| + 1))), 4, name), n - 4,
        Enc32(FDT_END_NODE))
         == EmptyNode(name)
  {
    hide Enc32, Align4, Put;
    var m := Align4(|name| + 1);
    var g1 := Put(gap, 0, Enc32(FDT_BEGIN_NODE));
    PutFront(gap, Enc32(FDT_BEGIN_NODE));
    var h := Enc32(FDT_BEGIN_NODE);
    var mid, last := gap[4..4 + m], gap[4 + m..];
    assert gap[4..] == mid + last;
    assert g1 == h + mid + last;
    PutMiddle(h, mid, last, 0, Zeros(m));
    PutWhole(mid, Zeros(m));
    PutMiddle(h, Zeros(m), last, 0, name);
    PutFront(Zeros(m), name);
    assert Zeros(m)[|name|..] == Zeros(m - |name|);
    var body := name + Zeros(m - |name|);
    var g3 := h + body + last;
    PutMiddle(h + body, last, [], 0, Enc32(FDT_END_NODE));
    assert h + body + last + [] == g3;
    PutWhole(last, Enc32(FDT_END_NODE));
    assert EmptyNode(name) == h + body + Enc32(FDT_END_NODE);
  }

  lemma NodeAddedBlob(b: seq<byte>, b2: seq<byte>, c: Cursor, q: nat, name: seq<byte>)
    requires Editable(b, Plug(c.spot, c.here)) && At(b, c.spot, c.here, q) && NoNul(name)
    requires Hdr(b).offStruct + q + 8 + Align4(|name| + 1) <= |b| && q <= |StructOf(b)|
    requires Sound(b2) && Ordered(Hdr(b2)) && StringsOf(b2) == StringsOf(b)
    requires var st, n := StructOf(b), 8 + Align4(|name| + 1);
      StructOf(b2) == Put(Put(Put(Put(st[..q] + Storage(b, q, n) + st[q..], q, Enc32(FDT_BEGIN_NODE)),
                          q + 4, Zeros(Align4(|name| + 1))), q + 4, name), q + n - 4, Enc32(FDT_END_NODE))
    ensures var g := NodeCons(name, Zeros(Align4(|name| + 1) - |name| - 1), Nil, c.here);
      Editable(b2, Plug(c.spot, g)) && At(b2, c.spot, g, q)
  {
    hide Hdr, Put, Enc32, Plug, Pre, Block, StructOf, StringsOf, Align4, Storage, EmptyNode, Enc;
    var n := 8 + Align4(|name| + 1);
    var a, z, gap := StructOf(b)[..q], StructOf(b)[q..], Storage(b, q, n);
    var g := NodeCons(name, Zeros(Align4(|name| + 1) - |name| - 1), Nil, c.here);
    EmptyNodeSize(name);
    FourWrites(gap, name);
    var g1 := Put(gap, 0, Enc32(FDT_BEGIN_NODE));
    PutMiddle(a, gap, z, 0, Enc32(FDT_BEGIN_NODE));
    var g2 := Put(g1, 4, Zeros(Align4(|name| + 1)));
    PutMiddle(a, g1, z, 4, Zeros(Align4(|name| + 1)));
    var g3 := Put(g2, 4, name);
    PutMiddle(a, g2, z, 4, name);
    PutMiddle(a, g3, z, n - 4, Enc32(FDT_END_NODE));
    AddedTokens(b, b2, c, g, q, name);
  }

  lemma EmptyNodeSize(name: seq<byte>)
    ensures |EmptyNode(name)| == 8 + Align4(|name| + 1)
  {
  }

  lemma AddedTokens(b: seq<byte>, b2: seq<byte>, c: Cursor, g: Forest, q: nat, name: seq<byte>)
    requires Editable(b, Plug(c.spot, c.here)) && At(b, c.spot, c.here, q) && NoNul(name) && q <= |StructOf(b)|
    requires Sound(b2) && Ordered(Hdr(b2)) && StringsOf(b2) == StringsOf(b)
    requires g == NodeCons(name, Zeros(Align4(|name| + 1) - |name| - 1), Nil, c.here)
    requires StructOf(b2) == StructOf(b)[..q] + EmptyNode(name) + StructOf(b)[q..]
    ensures Editable(b2, Plug(c.spot, g)) && At(b2, c.spot, g, q)
  {
    hide Hdr, Plug, Pre, Block, StructOf, StringsOf, Align4, EmptyNode, Enc;
    var xs2 := [BeginNode(name, g.npad), EndNode];
    EmptyNodeTokens(name);
    EmptyEnc();
    DecodePlug(c.spot, c.here, StringsOf(b));
    assert Flat(g) == xs2 + Flat(c.here);
    EditedBlob(b, b2, c.spot, c.here, g, [], xs2, Flat(c.here));
    EditableAt(b2, c.spot, g);
  }

  /** The bytes of a whole node lie between its offset and its end offset. */
  lemma NodeSpan(b: seq<byte>, s: Spot, f: Forest, node: nat, end: int)
    requires Editable(b, Plug(s, f)) && f.NodeCons? && At(b, s, f, node)
    requires At(b, AfterNode(s, f.name, f.npad, f.kids), f.rest, end)
    ensures AllValid(NodeToks(f)) && node + |Enc(NodeToks(f))| == end <= Hdr(b).sizeStruct
    ensures Flat(f) == NodeToks(f) + Flat(f.rest) && NamesOk(f.rest, StringsOf(b))
  {
    hide Hdr, Plug, Block, StructOf, StringsOf, Enc, Flat;
    var a, x := Pre(s), NodeToks(f);
    AtInStruct(b, AfterNode(s, f.name, f.npad, f.kids), f.rest, end);
    assert Pre(AfterNode(s, f.name, f.npad, f.kids)) == a + x;
    assert AllValid(x) by { assert forall t :: t in x ==> t in a + x; }
    EncConcat(a, x);
    DecodePlug(s, f, StringsOf(b));
    FlatNode(f);
  }

  lemma FlatNode(f: Forest)
    requires f.NodeCons?
    ensures Flat(f) == NodeToks(f) + Flat(f.rest)
  {
  }
}
