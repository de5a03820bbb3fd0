/** The ZIP writer of keygen.html: stored files, a central directory and an end
    record, read back as PKWARE's APPNOTE describes them (sections 4.3.7, 4.3.12
    and 4.3.16). */
module Zip {
  import opened Options
  import opened Words
  import Crc32

  /** A file after its name and contents were encoded as UTF-8. */
  datatype File = File(name: seq<Byte>, contents: seq<Byte>)

  function ToBits(s: seq<Byte>): seq<bv8> {
    seq(|s|, i requires 0 <= i < |s| => s[i] as bv8)
  }

  function CrcOf(contents: seq<Byte>): (r: nat)
    ensures r < 0x1_0000_0000
  {
    Crc32.Crc(ToBits(contents)) as nat
  }

  //
  // The format
  //

  const LOCAL: nat := 0x04034b50
  const CENTRAL: nat := 0x02014b50
  const END: nat := 0x06054b50

  /** Version, flags, method, time and date of a stored file. */
  function Stored(): (r: seq<Byte>)
    ensures |r| == 10
  {
    Le16(20) + Le16(0) + Le16(0) + Le16(0) + Le16(0)
  }

  /** The CRC and the two sizes. */
  function Sizes(f: File): (r: seq<Byte>)
    ensures |r| == 12
  {
    Le32(CrcOf(f.contents)) + Le32(|f.contents|) + Le32(|f.contents|)
  }

  /** A local header and the file behind it. */
  function Local(f: File): (r: seq<Byte>)
    ensures |r| == 30 + |f.name| + |f.contents|
  {
    Le32(LOCAL) + Stored() + Sizes(f) + Le16(|f.name|) + Le16(0) + f.name + f.contents
  }

  /** Extra field, comment, disk and attributes. */
  function Attributes(): (r: seq<Byte>)
    ensures |r| == 12
  {
    Le16(0) + Le16(0) + Le16(0) + Le16(0) + Le32(32)
  }

  /** A directory entry for a file whose local header is at offset. */
  function Central(f: File, offset: nat): (r: seq<Byte>)
    ensures |r| == 46 + |f.name|
  {
    Le32(CENTRAL) + Le16(0) + Stored() + Sizes(f) + Le16(|f.name|) + Attributes() + Le32(offset) + f.name
  }

  function Locals(files: seq<File>): seq<Byte> {
    if files == [] then [] else Local(files[0]) + Locals(files[1..])
  }

  function Centrals(files: seq<File>, offset: nat): seq<Byte> {
    if files == [] then []
    else Central(files[0], offset) + Centrals(files[1..], offset + |Local(files[0])|)
  }

  function End(count: nat, size: nat, offset: nat): (r: seq<Byte>)
    ensures |r| == 22
  {
    Le32(END) + Le16(0) + Le16(0) + Le16(count) + Le16(count) + Le32(size) + Le32(offset) + Le16(0)
  }

  function Archive(files: seq<File>): seq<Byte> {
    var b, cd := Locals(files), Centrals(files, 0);
    b + cd + End(|files|, |cd|, |b|)
  }

  //
  // Writing
  //

  lemma {:induction false} LocalsSnoc(files: seq<File>, f: File)
    ensures Locals(files + [f]) == Locals(files) + Local(f)
  {
    hide Local;
    if files == [] {
      assert [f][1..] == [];
    } else {
      assert (files + [f])[1..] == files[1..] + [f];
      LocalsSnoc(files[1..], f);
    }
  }

  lemma {:induction false} CentralsSnoc(files: seq<File>, f: File, offset: nat)
    ensures Centrals(files + [f], offset) == Centrals(files, offset) + Central(f, offset + |Locals(files)|)
  {
    hide Local, Central;
    if files == [] {
      assert [f][1..] == [];
    } else {
      var all, next := files + [f], offset + |Local(files[0])|;
      assert all[0] == files[0] && all[1..] == files[1..] + [f];
      CentralsSnoc(files[1..], f, next);
      assert |Locals(files)| == |Local(files[0])| + |Locals(files[1..])|;
      hide Locals;
      Associate(Central(files[0], offset), Centrals(files[1..], next), Central(f, offset + |Locals(files)|));
    }
  }

  /** The bytes pushed for one file, to the archive and to the directory. */
  method PutFile(crc: Crc32.Checksum, b0: seq<Byte>, cd0: seq<Byte>, f: File, offset: nat)
    returns (b: seq<Byte>, cd: seq<Byte>)
    requires crc.Valid()
    modifies crc
    ensures crc.Valid() && b == b0 + Local(f) && cd == cd0 + Central(f, offset)
  {
    var word := crc.Crc32(ToBits(f.contents));
    var sum := word as nat;
    assert sum == CrcOf(f.contents);
    var sizes := Le32(sum) + Le32(|f.contents|) + Le32(|f.contents|);
    hide Le16, Le32, CrcOf, Stored, Attributes;
    b := b0 + (Le32(LOCAL) + Stored() + sizes + Le16(|f.name|) + Le16(0) + f.name + f.contents);
    cd := cd0 + (Le32(CENTRAL) + Le16(0) + Stored() + sizes + Le16(|f.name|) + Attributes() + Le32(offset) + f.name);
  }

  /** createZipFile */
  method CreateZipFile(files: seq<File>) returns (z: seq<Byte>)
    ensures z == Archive(files)
  {
    hide Local, Central, Locals, Centrals;
    var crc := new Crc32.Checksum();
    var b, cd, offset := [], [], 0;
    NoFiles();
    for i := 0 to |files|
      invariant crc.Valid() && fresh(crc)
      invariant b == Locals(files[..i]) && cd == Centrals(files[..i], 0) && offset == |b|
    {
      assert files[..i + 1] == files[..i] + [files[i]];
      LocalsSnoc(files[..i], files[i]);
      CentralsSnoc(files[..i], files[i], 0);
      b, cd := PutFile(crc, b, cd, files[i], offset);
      offset := offset + 30 + |files[i].contents| + |files[i].name|;
    }
    assert files[..|files|] == files;
    z := b + cd;
    z := z + (Le32(END) + Le16(0) + Le16(0) + Le16(|files|) + Le16(|files|) + Le32(|cd|) + Le32(offset) + Le16(0));
  }

  lemma NoFiles()
    ensures Locals([]) == [] && Centrals([], 0) == []
  {
  }

  //
  // Reading
  //

  /** A file as its directory entry describes it; modified is the time and the date. */
  datatype Entry = Entry(
    name: seq<Byte>, contents: seq<Byte>, crc: nat, version: nat, modified: nat, attributes: nat)

  /** The two letters and two numbers that a record begins with. */
  predicate Signed(s: seq<Byte>, x: Byte, y: Byte)
    requires |s| >= 4
  {
    s[..4] == [0x50, 0x4b, x, y]
  }

  /** What a header at position at says about a stored file: no flags, no compression,
      and two sizes that agree. */
  predicate StoredAs(h: seq<Byte>, at: nat, crc: nat, size: nat)
    requires at + 22 <= |h|
  {
    GetLe16(h[at + 2..]) == 0 && GetLe16(h[at + 4..]) == 0
    && GetLe32(h[at + 10..]) == crc && GetLe32(h[at + 14..]) == size && GetLe32(h[at + 18..]) == size
  }

  /** The contents behind a local header, which must agree with its directory entry. */
  function ReadLocal(z: seq<Byte>, offset: nat, name: seq<Byte>, crc: nat, size: nat): Option<seq<Byte>> {
    if offset + 30 > |z| then None
    else
      var h := z[offset..];
      var start := 30 + GetLe16(h[26..]) + GetLe16(h[28..]);
      if !Signed(h, 3, 4) || !StoredAs(h, 4, crc, size) || start + size > |h| then None
      else if h[30..start] != name then None
      else Some(h[start..start + size])
  }

  /** One directory entry at the start of c, and its length. */
  function ReadEntry(z: seq<Byte>, c: seq<Byte>): (r: Option<(Entry, nat)>)
    ensures r.Some? ==> 46 <= r.value.1 <= |c|
  {
    if |c| < 46 then None
    else
      var len := 46 + GetLe16(c[28..]) + GetLe16(c[30..]) + GetLe16(c[32..]);
      var crc, size := GetLe32(c[16..]), GetLe32(c[20..]);
      if !Signed(c, 1, 2) || !StoredAs(c, 6, crc, size) || GetLe16(c[34..]) != 0 || len > |c| then None
      else
        var name := c[46..46 + GetLe16(c[28..])];
        match ReadLocal(z, GetLe32(c[42..]), name, crc, size)
        case None => None
        case Some(contents) =>
          Some((Entry(name, contents, crc, GetLe16(c[6..]), GetLe32(c[12..]), GetLe32(c[38..])), len))
  }

  /** So many entries, which must be all there is. */
  function ReadEntries(z: seq<Byte>, c: seq<Byte>, count: nat): Option<seq<Entry>> {
    if count == 0 then if c == [] then Some([]) else None
    else
      match ReadEntry(z, c)
      case None => None
      case Some((entry, len)) =>
        match ReadEntries(z, c[len..], count - 1)
        case None => None
        case Some(rest) => Some([entry] + rest)
  }

  /** The end record, found at the end of an archive of one disk without a comment, leads
      to the directory before it. */
  function Read(z: seq<Byte>): Option<seq<Entry>> {
    if |z| < 22 then None
    else
      var e := z[|z| - 22..];
      var count, size, offset := GetLe16(e[10..]), GetLe32(e[12..]), GetLe32(e[16..]);
      if !Signed(e, 5, 6) || GetLe16(e[4..]) != 0 || GetLe16(e[6..]) != 0 || GetLe16(e[8..]) != count then None
      else if GetLe16(e[20..]) != 0 || offset + size + 22 != |z| then None
      else ReadEntries(z, z[offset..offset + size], count)
  }

  //
  // Reading what was written
  //

  /** Reading a field that begins at position at. */
  lemma Field16(s: seq<Byte>, at: nat, x: nat)
    requires at + 2 <= |s| && s[at..at + 2] == Le16(x) && x < 0x1_0000
    ensures GetLe16(s[at..]) == x
  {
    Le16RoundTrip(x);
    assert s[at..][..2] == s[at..at + 2];
  }

  lemma Field32(s: seq<Byte>, at: nat, x: nat)
    requires at + 4 <= |s| && s[at..at + 4] == Le32(x) && x < 0x1_0000_0000
    ensures GetLe32(s[at..]) == x
  {
    Le32RoundTrip(x);
    assert s[at..][..4] == s[at..at + 4];
  }

  /** The positions of pieces one behind the other. */
  lemma Positions(a: seq<Byte>, b: seq<Byte>, c: seq<Byte>, d: seq<Byte>, e: seq<Byte>, f: seq<Byte>)
    ensures var s := a + b + c + d + e + f;
      var n := |a|; var m := n + |b|; var k := m + |c|; var j := k + |d|;
      s[0..n] == a && s[n..m] == b && s[m..k] == c && s[k..j] == d && s[j..j + |e|] == e
  {
  }

  /** A slice of a slice. */
  lemma Inner(s: seq<Byte>, at: nat, x: seq<Byte>, from: nat, to: nat)
    requires at + |x| <= |s| && s[at..at + |x|] == x && from <= to <= |x|
    ensures s[at + from..at + to] == x[from..to]
  {
    var t, u := x[from..to], s[at + from..at + to];
    assert forall i :: 0 <= i < |t| ==> t[i] == x[from + i] == u[i];
  }

  /** Slices in front of a suffix, and of what follows them. */
  lemma Prefix(front: seq<Byte>, x: seq<Byte>, rest: seq<Byte>, s: seq<Byte>, from: nat, to: nat)
    requires s == front + x + rest && from <= to && (to <= |front| || (from == |front| && to == |front| + |x|))
    ensures s[from..to] == if to <= |front| && from < |front| then front[from..to] else x[..to - from]
  {
    var t := s[from..to];
    if to <= |front| && from < |front| {
      assert forall i :: 0 <= i < to - from ==> t[i] == s[from + i] == front[from + i];
    } else {
      assert forall i :: 0 <= i < to - from ==> t[i] == s[from + i];
    }
  }

  /** Where the fields of a local header are. */
  lemma LocalFields(f: File, rest: seq<Byte>)
    ensures var h, n := Local(f) + rest, |f.name|;
      h[..4] == Le32(LOCAL) && h[4..14] == Stored() && h[14..26] == Sizes(f)
      && h[26..28] == Le16(n) && h[28..30] == Le16(0)
      && h[30..30 + n] == f.name && h[30 + n..30 + n + |f.contents|] == f.contents
  {
    hide Le16, Le32, CrcOf, Stored, Sizes;
    var h, n := Local(f) + rest, |f.name|;
    var head := Le32(LOCAL) + Stored();
    var front := head + Sizes(f) + Le16(n) + Le16(0) + f.name;
    Associate(front, f.contents, rest);
    Positions(head, Sizes(f), Le16(n), Le16(0), f.name, f.contents + rest);
    Positions(Le32(LOCAL), Stored(), Sizes(f), Le16(n), Le16(0), f.name);
    Prefix(front, f.contents, rest, h, 0, 4);
    Prefix(front, f.contents, rest, h, 4, 14);
    Prefix(front, f.contents, rest, h, 30 + n, 30 + n + |f.contents|);
  }

  /** Where the fields of a directory entry are. */
  lemma CentralFields(f: File, offset: nat, rest: seq<Byte>)
    ensures var c, n := Central(f, offset) + rest, |f.name|;
      c[..4] == Le32(CENTRAL) && c[6..16] == Stored() && c[16..28] == Sizes(f) && c[28..30] == Le16(n)
      && c[30..42] == Attributes() && c[42..46] == Le32(offset) && c[46..46 + n] == f.name
  {
    hide Le16, Le32, CrcOf, Stored, Sizes, Attributes;
    var c, n := Central(f, offset) + rest, |f.name|;
    var head := Le32(CENTRAL) + Le16(0);
    Positions(head, Stored(), Sizes(f), Le16(n), Attributes(), Le32(offset) + f.name + rest);
    assert c == head + Stored() + Sizes(f) + Le16(n) + Attributes() + (Le32(offset) + f.name + rest);
    var front := head + Stored() + Sizes(f) + Le16(n) + Attributes();
    Positions(front, Le32(offset), f.name, rest, [], []);
    assert c == front + Le32(offset) + f.name + rest + [] + [];
    assert c[..4] == head[..4] == Le32(CENTRAL);
  }

  /** The fields that a header has after its signature, from position at on. */
  lemma StoredBack(h: seq<Byte>, at: nat, f: File)
    requires at + 22 <= |h| && h[at..at + 10] == Stored() && h[at + 10..at + 22] == Sizes(f)
    requires |f.contents| < 0x1_0000_0000
    ensures StoredAs(h, at, CrcOf(f.contents), |f.contents|)
    ensures GetLe16(h[at..]) == 20 && GetLe32(h[at + 6..]) == 0
  {
    hide Le16, Le32, GetLe16, GetLe32, CrcOf;
    StoredFields();
    SizesFields(f);
    Inner(h, at, Stored(), 0, 2);
    Inner(h, at, Stored(), 2, 4);
    Inner(h, at, Stored(), 4, 6);
    Inner(h, at, Stored(), 6, 10);
    Inner(h, at + 10, Sizes(f), 0, 4);
    Inner(h, at + 10, Sizes(f), 4, 8);
    Inner(h, at + 10, Sizes(f), 8, 12);
    hide Stored, Sizes;
    Field16(h, at, 20);
    Field16(h, at + 2, 0);
    Field16(h, at + 4, 0);
    Field32(h, at + 6, 0);
    Field32(h, at + 10, CrcOf(f.contents));
    Field32(h, at + 14, |f.contents|);
    Field32(h, at + 18, |f.contents|);
  }

  lemma StoredFields()
    ensures var s := Stored();
      s[0..2] == Le16(20) && s[2..4] == Le16(0) && s[4..6] == Le16(0) && s[6..10] == Le32(0)
  {
  }

  lemma SizesFields(f: File)
    ensures var s := Sizes(f);
      s[0..4] == Le32(CrcOf(f.contents)) && s[4..8] == Le32(|f.contents|) && s[8..12] == Le32(|f.contents|)
  {
    hide Le32, CrcOf;
  }

  lemma AttributesFields()
    ensures var s := Attributes();
      s[0..2] == Le16(0) && s[2..4] == Le16(0) && s[4..6] == Le16(0) && s[8..12] == Le32(32)
  {
    hide Le16, Le32;
  }

  lemma Signatures()
    ensures Le32(LOCAL) == [0x50, 0x4b, 3, 4] && Le32(CENTRAL) == [0x50, 0x4b, 1, 2] && Le32(END) == [0x50, 0x4b, 5, 6]
  {
  }

  lemma EndFields(count: nat, size: nat, offset: nat)
    ensures var e, zero := End(count, size, offset), Le16(0);
      e[..4] == Le32(END) && e[4..6] == zero && e[6..8] == zero && e[8..10] == Le16(count) && e[10..12] == Le16(count)
      && e[12..16] == Le32(size) && e[16..20] == Le32(offset) && e[20..22] == zero
  {
    hide Le16, Le32;
    var n, zero := Le16(count), Le16(0);
    var front := Le32(END) + zero + zero + n + n + Le32(size);
    Positions(Le32(END), zero, zero, n, n, Le32(size));
    Positions(front, Le32(offset), zero, [], [], []);
    var e := End(count, size, offset);
    assert e == front + Le32(offset) + zero + [] + [] + [];
    assert front == e[..16];
  }

  /** Names, sizes and offsets fit their fields. */
  predicate Fits(files: seq<File>) {
    |files| < 0x1_0000 && (forall i :: 0 <= i < |files| ==> |files[i].name| < 0x1_0000)
    && |Locals(files)| < 0x1_0000_0000 && |Centrals(files, 0)| < 0x1_0000_0000
  }

  function EntryOf(f: File): Entry {
    Entry(f.name, f.contents, CrcOf(f.contents), 20, 0, 32)
  }

  function Entries(files: seq<File>): seq<Entry> {
    if files == [] then [] else [EntryOf(files[0])] + Entries(files[1..])
  }

  lemma LocalBack(z: seq<Byte>, pre: seq<Byte>, f: File, rest: seq<Byte>)
    requires z == pre + (Local(f) + rest) && |f.name| < 0x1_0000 && |f.contents| < 0x1_0000_0000
    ensures ReadLocal(z, |pre|, f.name, CrcOf(f.contents), |f.contents|) == Some(f.contents)
  {
    Signatures();
    hide Le16, Le32, CrcOf, Local, GetLe16, GetLe32, StoredAs;
    var h, n := Local(f) + rest, |f.name|;
    assert z[|pre|..] == h;
    LocalFields(f, rest);
    StoredBack(h, 4, f);
    Field16(h, 26, n);
    Field16(h, 28, 0);
  }

  lemma AttributesBack(c: seq<Byte>)
    requires 42 <= |c| && c[30..42] == Attributes()
    ensures GetLe16(c[30..]) == GetLe16(c[32..]) == GetLe16(c[34..]) == 0 && GetLe32(c[38..]) == 32
  {
    hide Le16, Le32, GetLe16, GetLe32;
    AttributesFields();
    Inner(c, 30, Attributes(), 0, 2);
    Inner(c, 30, Attributes(), 2, 4);
    Inner(c, 30, Attributes(), 4, 6);
    Inner(c, 30, Attributes(), 8, 12);
    Field16(c, 30, 0);
    Field16(c, 32, 0);
    Field16(c, 34, 0);
    Field32(c, 38, 32);
  }

  lemma EntryBack(z: seq<Byte>, pre: seq<Byte>, f: File, rest: seq<Byte>, c: seq<Byte>)
    requires z == pre + (Local(f) + rest) && |f.name| < 0x1_0000 && |f.contents| < 0x1_0000_0000
    requires |pre| < 0x1_0000_0000
    ensures ReadEntry(z, Central(f, |pre|) + c) == Some((EntryOf(f), 46 + |f.name|))
  {
    Signatures();
    hide Le16, Le32, CrcOf, Local, Central, GetLe16, GetLe32, ReadLocal;
    var d, n := Central(f, |pre|) + c, |f.name|;
    CentralFields(f, |pre|, c);
    StoredBack(d, 6, f);
    Field16(d, 28, n);
    AttributesBack(d);
    Field32(d, 42, |pre|);
    LocalBack(z, pre, f, rest);
  }

  /** The directory of the files behind pre. */
  lemma {:induction false} EntriesBack(z: seq<Byte>, pre: seq<Byte>, files: seq<File>, rest: seq<Byte>)
    requires z == pre + (Locals(files) + rest) && |pre + Locals(files)| < 0x1_0000_0000
    requires forall i :: 0 <= i < |files| ==> |files[i].name| < 0x1_0000
    ensures ReadEntries(z, Centrals(files, |pre|), |files|) == Some(Entries(files))
    decreases |files|
  {
    hide Local, Central, CrcOf, ReadEntry, EntryOf;
    if files != [] {
      var f, more := files[0], files[1..];
      var tail := Locals(more) + rest;
      assert Locals(files) + rest == Local(f) + tail;
      EntryBack(z, pre, f, tail, Centrals(more, |pre| + |Local(f)|));
      var pre' := pre + Local(f);
      assert z == pre' + (Locals(more) + rest);
      assert forall i :: 0 <= i < |more| ==> more[i] == files[i + 1];
      EntriesBack(z, pre', more, rest);
      assert (Central(f, |pre|) + Centrals(more, |pre'|))[46 + |f.name|..] == Centrals(more, |pre'|);
    }
  }

  /** The end record leads to the directory. */
  lemma {:induction false} EndBack(b: seq<Byte>, cd: seq<Byte>, count: nat)
    requires count < 0x1_0000 && |b| < 0x1_0000_0000 && |cd| < 0x1_0000_0000
    ensures var z := b + cd + End(count, |cd|, |b|);
      Read(z) == ReadEntries(z, cd, count)
  {
    Signatures();
    hide Le16, Le32, GetLe16, GetLe32, ReadEntries, End;
    var e := End(count, |cd|, |b|);
    var z := b + cd + e;
    assert z[|z| - 22..] == e;
    EndFields(count, |cd|, |b|);
    Field16(e, 4, 0);
    Field16(e, 6, 0);
    Field16(e, 8, count);
    Field16(e, 20, 0);
    Field16(e, 10, count);
    Field32(e, 12, |cd|);
    Field32(e, 16, |b|);
    assert z[|b|..|b| + |cd|] == cd;
  }

  /** A reader of the archive finds exactly the files, with their CRCs and as stored
      files of version 2.0 with the archive attribute. */
  lemma {:induction false} ReadArchive(files: seq<File>)
    requires Fits(files)
    ensures Read(Archive(files)) == Some(Entries(files))
  {
    hide Locals, Centrals, ReadEntries, End, Read;
    var b, cd := Locals(files), Centrals(files, 0);
    var e := End(|files|, |cd|, |b|);
    var z := b + cd + e;
    EndBack(b, cd, |files|);
    assert z == [] + (b + (cd + e)) && [] + b == b;
    EntriesBack(z, [], files, cd + e);
  }
}
