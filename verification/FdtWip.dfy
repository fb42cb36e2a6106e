/** fdt/fdt_wip.c: edits that keep every offset, overwriting value bytes or putting NOPs. */
module FdtWip {
  import opened Bytes
  import opened Tokens
  import opened Forests
  import opened Trees
  import opened Walks
  import opened Blobs
  import opened Layouts
  import opened Edits
  import opened Fdt
  import opened FdtRo
  import opened FdtRw

  /** Nothing outside `len` bytes at offset `q` of the structure block differs. */
  ghost predicate OnlyChanges(b: seq<byte>, c: seq<byte>, q: nat, len: nat)
    requires Sound(b)
  {
    && |c| == |b|
    && forall i :: 0 <= i < |b| && !(Hdr(b).offStruct + q <= i < Hdr(b).offStruct + q + len) ==> c[i] == b[i]
  }

  /** Nothing outside the property's own cell differs. */
  ghost predicate OnlyCellChanges(b: seq<byte>, c: seq<byte>, p: Cursor)
    requires Sound(b) && p.here.PropCons?
  {
    AllValid(Pre(p.spot)) && OnlyChanges(b, c, Off(p.spot), 12 + Align4(|p.here.val|))
  }

  lemma PutOnlyChanges(b: seq<byte>, q: nat, x: seq<byte>)
    requires Sound(b) && Hdr(b).offStruct + q + |x| <= |b|
    ensures OnlyChanges(b, Put(b, Hdr(b).offStruct + q, x), q, |x|)
  {
    hide Hdr;
  }

  /** The bytes of `n` NOP tags. */
  function NopBytes(n: nat): (b: seq<byte>)
    ensures |b| == 4 * n
  {
    if n == 0 then [] else NopBytes(n - 1) + Enc32(FDT_NOP)
  }

  lemma {:induction false} NopBytesEnc(n: nat)
    ensures AllValid(NopTokens(n)) && Enc(NopTokens(n)) == NopBytes(n)
  {
    if n > 0 {
      NopBytesEnc(n - 1);
      assert NopTokens(n) == NopTokens(n - 1) + [Nop];
      EncConcat(NopTokens(n - 1), [Nop]);
      EncOne(Nop);
    }
  }

  /** `fdt_nop_region_`. */
  method NopRegion(buf: array<byte>, start: nat, n: nat)
    requires start + 4 * n <= buf.Length
    modifies buf
    ensures buf[..] == Put(old(buf[..]), start, NopBytes(n))
  {
    hide Put, Enc32;
    var i := 0;
    PutNone(buf[..], start);
    while i < n
      invariant 0 <= i <= n
      invariant buf[..] == Put(old(buf[..]), start, NopBytes(i))
    {
      Memcpy(buf, start + 4 * i, Enc32(FDT_NOP));
      PutNext(old(buf[..]), start, NopBytes(i), Enc32(FDT_NOP));
      i := i + 1;
    }
  }

  /** Tokens overwritten by NOPs of the same total size. */
  lemma NoppedBlob(b: seq<byte>, s: Spot, f: Forest, f2: Forest, xs: seq<Token>, q: nat, n: nat)
    requires Editable(b, Plug(s, f)) && At(b, s, f, q) && Flat(f) == xs + Flat(f2) && AllValid(xs)
    requires |Enc(xs)| == 4 * n && q + 4 * n <= Hdr(b).sizeStruct && NamesOk(f2, StringsOf(b))
    ensures Hdr(b).offStruct + q + 4 * n <= |b|
    ensures var b2 := Put(b, Hdr(b).offStruct + q, NopBytes(n));
      && Sound(b2) && Ordered(Hdr(b2)) && Hdr(b2) == Hdr(b) && SameFrame(b, b2) && StringsOf(b2) == StringsOf(b)
      && Editable(b2, Plug(s, Nops(n, f2))) && OnlyChanges(b, b2, q, 4 * n)
  {
    hide Hdr, Plug, Pre, Block, Flat, StructOf, StringsOf, NamesOk, Enc, Put, NopBytes, Nops;
    AtInStruct(b, s, f, q);
    PutStruct(b, q, NopBytes(n));
    PutOnlyChanges(b, q, NopBytes(n));
    NopBytesEnc(n);
    FlatNops(n, f2);
    NopsInvisible(n, f2, StringsOf(b));
    PutInStruct(StructOf(b), q, NopBytes(n));
    EditedBlob(b, Put(b, Hdr(b).offStruct + q, NopBytes(n)), s, f, Nops(n, f2), xs, NopTokens(n), Flat(f2));
  }

  lemma PutInStruct(st: seq<byte>, q: nat, x: seq<byte>)
    requires q + |x| <= |st|
    ensures Put(st, q, x) == st[..q] + x + st[q + |x|..]
  {
  }

  /**
   `fdt_nop_property`: the property is gone from the decoded tree exactly as if `fdt_delprop` had
   removed it, while only its own bytes change and every other offset stays.
   */
  method NopProperty(d: Dtb, node: nat, name: seq<byte>, ghost s: Spot, ghost f: Forest) returns (err: int)
    requires d.Valid() && d.tree == Plug(s, f) && f.NodeCons? && At(d.buf[..], s, f, node)
    modifies d, d.buf
    ensures d.Valid() && StringsOf(d.buf[..]) == StringsOf(old(d.buf[..])) && Hdr(d.buf[..]) == Hdr(old(d.buf[..]))
    ensures var strs := StringsOf(old(d.buf[..]));
      err == if PropOf(Items(s, f, strs), name).Some? then 0 else -NOTFOUND
    ensures err != 0 ==> d.buf[..] == old(d.buf[..]) && d.tree == old(d.tree)
    ensures err == 0 ==> var strs := StringsOf(old(d.buf[..]));
      d.Meaning() == WithItems(s, f, strs, DropProp(Items(s, f, strs), name))
    ensures var found := FindProp(Inside(s, f.name, f.npad, f.rest), f.kids, StringsOf(old(d.buf[..])), name);
      err == 0 ==> found.Some? && OnlyCellChanges(old(d.buf[..]), d.buf[..], found.value)
  {
    hide Hdr, Put, Plug, Pre, Block, Enc, StructOf, StringsOf, NamesOk, Align4, RsvOf, FindProp, Decode, DropRaw,
      NopBytes, Nops;
    ghost var b, strs := d.buf[..], StringsOf(d.buf[..]);
    var poff, len := GetProperty(d.buf[..], node, name, s, f);
    ghost var inner := Inside(s, f.name, f.npad, f.rest);
    ItemsDecode(s, f, strs);
    FindPropReads(inner, f.kids, strs, name);
    if poff < 0 {
      return len;
    }
    ghost var c := FindProp(inner, f.kids, strs, name).value;
    var n := (12 + Align4(len)) / 4;
    AtInStruct(b, c.spot, c.here, poff);
    FindPropDrops(inner, f.kids, strs, name, n);
    InsidePlug(s, f);
    CellTokens(b, c, poff);
    NopWords(len, n);
    NoppedBlob(b, c.spot, c.here, c.here.rest, [Head(c.spot, c.here)], poff, n);
    NopRegion(d.buf, Hdr(d.buf[..]).offStruct + poff, n);
    ghost var kids := DropRaw(f.kids, strs, name, n);
    InsidePlug(s, NodeCons(f.name, f.npad, kids, f.rest));
    d.tree := Plug(c.spot, Nops(n, c.here.rest));
    ItemsReplaced(s, f, strs, kids, strs, DropProp(Items(s, f, strs), name));
    return 0;
  }

  /** The loop bound of `fdt_nop_region_` in words: a property's value is padded to whole words. */
  lemma NopWords(len: nat, n: nat)
    requires n == (12 + Align4(len)) / 4
    ensures 4 * n == 12 + Align4(len)
  {
  }

  /** `fdt_nop_node`: as `fdt_del_node` for the decoded tree, changing only the node's own bytes. */
  method NopNode(d: Dtb, node: nat, ghost s: Spot, ghost f: Forest) returns (err: int)
    requires d.Valid() && d.tree == Plug(s, f) && f.NodeCons? && At(d.buf[..], s, f, node)
    modifies d, d.buf
    ensures err == 0
    ensures d.Valid() && StringsOf(d.buf[..]) == StringsOf(old(d.buf[..])) && Hdr(d.buf[..]) == Hdr(old(d.buf[..]))
    ensures var strs := StringsOf(old(d.buf[..])); d.Meaning() == WithTail(s, f, strs, Rest(s, f, strs))
    ensures AllValid(NodeToks(f)) && OnlyChanges(old(d.buf[..]), d.buf[..], node, |Enc(NodeToks(f))|)
  {
    hide Hdr, Put, Plug, Pre, Block, Enc, StructOf, StringsOf, NamesOk, Align4, RsvOf, Decode, NopBytes, Nops;
    ghost var b, strs := d.buf[..], StringsOf(d.buf[..]);
    var endoffset := NodeEndOffset(d.buf[..], node, s, f);
    NodeSpan(b, s, f, node, endoffset);
    EncAligned(NodeToks(f));
    var n := (endoffset - node) / 4;
    NoppedBlob(b, s, f, f.rest, NodeToks(f), node, n);
    NopRegion(d.buf, Hdr(d.buf[..]).offStruct + node, n);
    d.tree := Plug(s, Nops(n, f.rest));
    DecodePlug(s, f, strs);
    NopsInvisible(n, f.rest, strs);
    DecodePlug(s, Nops(n, f.rest), strs);
    return 0;
  }

  /** The unsigned test refuses the write, or the write stays inside a value of `len` bytes. */
  predicate PartialInside(len: nat, idx: u32, n: nat) { len < Wrap32(n + idx) || idx + n <= len }

  /** A write behind the value is let through exactly when the sum wraps around to a length that fits. */
  lemma PartialStrays(len: nat, idx: u32, n: nat)
    requires len <= INT_MAX && n <= INT_MAX
    ensures !PartialInside(len, idx, n) <==> idx + n >= 0x1_0000_0000 && idx + n - 0x1_0000_0000 <= len
  {
  }

  /** Such a write exists: four bytes that are to start 0xfffffffe bytes into a value of four bytes. */
  lemma PartialCanStray()
    ensures exists len: nat, idx: u32, n: nat :: len == n == 4 && len < idx && !PartialInside(len, idx, n)
  {
    assert !PartialInside(4, 0xffff_fffe, 4);
  }

  /** `fdt_setprop_inplace_namelen_partial`: bytes of a property's value overwritten in place. */
  method SetpropInplacePartial(d: Dtb, node: nat, name: seq<byte>, idx: u32, val: seq<byte>, ghost s: Spot,
      ghost f: Forest)
    returns (err: int, ghost kids: Forest)
    requires d.Valid() && d.tree == Plug(s, f) && f.NodeCons? && At(d.buf[..], s, f, node)
    requires |val| <= INT_MAX
    requires match PropOf(Items(s, f, StringsOf(d.buf[..])), name)
      case None => true
      case Some(v) => PartialInside(|v|, idx, |val|)
    modifies d, d.buf
    ensures d.Valid() && StringsOf(d.buf[..]) == StringsOf(old(d.buf[..])) && Hdr(d.buf[..]) == Hdr(old(d.buf[..]))
    ensures var strs := StringsOf(old(d.buf[..]));
      err == match PropOf(Items(s, f, strs), name)
             case None => -NOTFOUND
             case Some(v) => if |v| < idx + |val| then -NOSPACE else 0
    ensures err != 0 ==> d.buf[..] == old(d.buf[..]) && d.tree == old(d.tree)
    ensures err == 0 ==> d.tree == Plug(s, NodeCons(f.name, f.npad, kids, f.rest))
    ensures err == 0 ==> var strs := StringsOf(old(d.buf[..])); var t := Items(s, f, strs);
      && NamesOk(kids, strs) && Decode(kids, strs) == ReplaceProp(t, name, Put(PropOf(t, name).value, idx, val))
      && d.Meaning() == WithItems(s, f, strs, ReplaceProp(t, name, Put(PropOf(t, name).value, idx, val)))
    ensures err == 0 ==> var strs := StringsOf(old(d.buf[..]));
      var found := FindProp(Inside(s, f.name, f.npad, f.rest), f.kids, strs, name);
      && found.Some? && idx + |val| <= |found.value.here.val|
      && kids == ReplaceRaw(f.kids, strs, name, Put(found.value.here.val, idx, val), found.value.here.pad)
  {
    hide Hdr, Put, Plug, Pre, Block, Enc, StructOf, StringsOf, NamesOk, Align4, RsvOf, FindProp, Decode, ReplaceRaw;
    ghost var b, strs := d.buf[..], StringsOf(d.buf[..]);
    kids := f;
    var poff, proplen := GetProperty(d.buf[..], node, name, s, f);
    ghost var inner := Inside(s, f.name, f.npad, f.rest);
    ItemsDecode(s, f, strs);
    FindPropReads(inner, f.kids, strs, name);
    InsidePlug(s, f);
    if poff < 0 {
      return proplen, kids;
    }
    if proplen < Wrap32(|val| + idx) {
      return -NOSPACE, kids;
    }
    ghost var c := FindProp(inner, f.kids, strs, name).value;
    AtInStruct(b, c.spot, c.here, poff);
    PropUnder(b, c, poff);
    d.WriteStruct(poff + 12 + idx, val);
    WrittenBlob(b, d.buf[..], c, poff, idx, val);
    ghost var v := Put(c.here.val, idx, val);
    FindPropReplaces(inner, f.kids, strs, name, v, c.here.pad);
    kids := ReplaceRaw(f.kids, strs, name, v, c.here.pad);
    InsidePlug(s, NodeCons(f.name, f.npad, kids, f.rest));
    d.tree := Plug(c.spot, PropCons(c.here.nameoff, v, c.here.pad, c.here.rest));
    ItemsReplaced(s, f, strs, kids, strs, ReplaceProp(Items(s, f, strs), name, v));
    return 0, kids;
  }

  /** `fdt_setprop_inplace`: the whole value replaced by one of the same length. */
  method SetpropInplace(d: Dtb, node: nat, name: seq<byte>, val: seq<byte>, ghost s: Spot, ghost f: Forest)
    returns (err: int, ghost kids: Forest)
    requires d.Valid() && d.tree == Plug(s, f) && f.NodeCons? && At(d.buf[..], s, f, node)
    requires |val| <= INT_MAX
    modifies d, d.buf
    ensures d.Valid() && StringsOf(d.buf[..]) == StringsOf(old(d.buf[..])) && Hdr(d.buf[..]) == Hdr(old(d.buf[..]))
    ensures var strs := StringsOf(old(d.buf[..]));
      err == match PropOf(Items(s, f, strs), name)
             case None => -NOTFOUND
             case Some(v) => if |v| != |val| then -NOSPACE else 0
    ensures err != 0 ==> d.buf[..] == old(d.buf[..]) && d.tree == old(d.tree)
    ensures err == 0 ==> d.tree == Plug(s, NodeCons(f.name, f.npad, kids, f.rest))
    ensures err == 0 ==> var strs := StringsOf(old(d.buf[..])); var t := ReplaceProp(Items(s, f, strs), name, val);
      NamesOk(kids, strs) && Decode(kids, strs) == t && d.Meaning() == WithItems(s, f, strs, t)
    ensures err == 0 ==> var strs := StringsOf(old(d.buf[..]));
      var found := FindProp(Inside(s, f.name, f.npad, f.rest), f.kids, strs, name);
      found.Some? && kids == ReplaceRaw(f.kids, strs, name, val, found.value.here.pad)
  {
    hide Hdr, Put, Plug, Pre, Block, Enc, StructOf, StringsOf, NamesOk, Align4, RsvOf, FindProp, Decode, Off,
      ReplaceRaw;
    ghost var strs := StringsOf(d.buf[..]);
    kids := f;
    var poff, proplen := GetProperty(d.buf[..], node, name, s, f);
    ItemsDecode(s, f, strs);
    FindPropReads(Inside(s, f.name, f.npad, f.rest), f.kids, strs, name);
    if poff < 0 {
      return proplen, kids;
    }
    if proplen != |val| {
      return -NOSPACE, kids;
    }
    err, kids := SetpropInplacePartial(d, node, name, 0, val, s, f);
    PutWhole(PropOf(Items(s, f, strs), name).value, val);
  }
}
