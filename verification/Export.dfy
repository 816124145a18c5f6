/** Writing archives: the entry writer of archive.go with its memory of hard
    links, the overlay conversion of whiteouts, and the export of changes. */
module Export {
  import opened Names
  import opened Trees
  import opened Headers
  import opened Layers

  /** hasHardlinks: another name leads to the same inode. */
  predicate HasHardlinks(t: Tree, p: Path)
    requires p in t.names
  {
    exists q | q in t.names :: q != p && t.names[q] == t.names[p]
  }

  /** The inode has more than one name. */
  lemma LinkCount(t: Tree, p: Path)
    requires p in t.names
    ensures HasHardlinks(t, p) <==> |set q | q in t.names && t.names[q] == t.names[p]| > 1
  {
    var all := set q | q in t.names && t.names[q] == t.names[p];
    assert p in all;
    if q :| q in t.names && q != p && t.names[q] == t.names[p] {
      SubsetSize({p, q}, all);
    } else {
      assert all == {p};
    }
  }

  /** The overlay file system marks a deleted name with a device 0:0. */
  predicate IsOverlayWhiteout(node: Inode) {
    node.kind == Char(0, 0)
  }

  function PlainHeader(name: string): Header {
    Header(name, TypeReg, "", 0, 0, 0, MIN_TIME, 0, 0, "", "")
  }

  class TarAppender {
    const src: Tree
    const overlay: bool

    var out: seq<Header>
    var seenFiles: map<Ino, string>

    /** What has been written, as items of a layer. */
    ghost var items: seq<Item>

    constructor (src: Tree, overlay: bool)
      ensures this.src == src && this.overlay == overlay
      ensures out == [] && items == [] && Valid()
    {
      this.src, this.overlay := src, overlay;
      out, seenFiles, items := [], map[], [];
    }

    ghost predicate Valid()
      reads this
    {
      && EncodesAll(ArchivalTree(src), items, out) && Remembers(src, overlay, items, seenFiles)
      && LinksNameFiles(items, out)
    }

    /** What addTarFile writes for p: nothing for what cannot be archived, a
        whiteout for an overlay whiteout, otherwise the file, as a link if its
        inode was written before; an opaque directory is followed by its
        marker. */
    ghost predicate Wrote(before: seq<Item>, after: seq<Item>, p: Path) {
      if !src.Has(p) || src.At(p).kind.Socket? then after == before
      else if overlay && IsOverlayWhiteout(src.At(p)) then after == before + [Del(p)]
      else
        exists link ::
          && (p !in SumOf(before).puts ==> LinkIsFirst(src, SumOf(before), p, link))
          && after == before + [Put(p, link)] + Marker(p)
    }

    /** addTarFile. */
    method AddTarFile(p: Path)
      requires Valid() && p != [] && src.Valid()
      modifies this
      ensures Valid() && Wrote(old(items), items, p)
    {
      if !src.Has(p) {
        return;
      }
      var fi := src.At(p);
      if fi.kind.Socket? {
        return;
      }
      var hdr := FileHeader(fi, p, None);
      ghost var link: Option<Path> := None;
      if !fi.kind.Dir? && HasHardlinks(src, p) {
        hdr, link := CheckHardlink(p, hdr);
      }
      if overlay && IsOverlayWhiteout(fi) {
        WriteWhiteout(p, hdr);
      } else {
        WriteFile(p, hdr, link);
      }
    }

    /** ConvertWrite for a deleted name: the device is renamed and made an
        ordinary file. */
    method WriteWhiteout(p: Path, hdr: Header)
      requires p != [] && p in src.names && src.Valid()
      requires Valid()
      modifies this`out, this`items
      ensures Valid() && items == old(items) + [Del(p)]
    {
      var wo := hdr.(name := Join(WhiteoutPath(p)), perm := 0x180, typeflag := TypeReg, data := "");
      NamesAreOrdinary(src, p);
      WhiteoutIsEncoded(src, p, wo);
      RemembersOther(src, overlay, items, seenFiles, Del(p));
      WriteHeader(wo, Del(p));
    }

    /** The whiteout that ExportChanges writes for a deletion. */
    method WriteDeletion(p: Path)
      requires Valid() && p != [] && OrdinaryPath(p)
      modifies this`out, this`items
      ensures Valid() && items == old(items) + [Del(p)]
    {
      var hdr := PlainHeader(Join(WhiteoutPath(p)));
      WhiteoutIsEncoded(src, p, hdr);
      RemembersOther(src, overlay, items, seenFiles, Del(p));
      WriteHeader(hdr, Del(p));
    }

    /** The header itself, and ConvertWrite for an opaque directory: its marker
        follows. */
    method WriteFile(p: Path, hdr: Header, ghost link: Option<Path>)
      requires p != [] && src.Has(p) && src.Valid() && EncodesAll(ArchivalTree(src), items, out)
      requires LinksNameFiles(items, out)
      requires link.Some? ==> Put(link.value, None) in items
      requires hdr == FileHeader(src.At(p), p, link) && !Hidden(src, overlay, src.names[p])
      requires RemembersUpTo(src, overlay, items, seenFiles, p, link)
      requires !src.IsDir(p) && HasHardlinks(src, p) ==> src.names[p] in seenFiles
      modifies this`out, this`items
      ensures Valid() && items == old(items) + [Put(p, link)] + Marker(p)
    {
      hide Encodes, EncodesAll, Remembers, RemembersUpTo, LinksNameFiles, Hidden, Knows;
      FileIsEncoded(src, p, link, hdr);
      RemembersPut(src, overlay, items, seenFiles, p, link);
      WriteHeader(hdr, Put(p, link));
      WriteMarker(p, hdr);
    }

    /** ConvertWrite for an opaque directory. */
    method WriteMarker(p: Path, hdr: Header)
      requires Valid() && p != [] && src.Has(p) && p in src.names && src.Valid()
      requires src.IsDir(p) ==> hdr.name == Join(p) + "/"
      modifies this`out, this`items
      ensures Valid() && items == old(items) + Marker(p)
    {
      hide EncodesAll, Remembers, LinksNameFiles;
      var fi := src.At(p);
      if overlay && fi.kind.Dir? && fi.hidesLower {
        var wo := PlainHeader(hdr.name + WHITEOUT_OPAQUE_DIR).(perm := fi.perm, uid := fi.uid, gid := fi.gid);
        OpaqueIsEncoded(src, p, wo);
        RemembersOther(src, overlay, items, seenFiles, Opq(p));
        WriteHeader(wo, Opq(p));
      }
    }

    /** The marker of an opaque directory. */
    ghost function Marker(p: Path): seq<Item> {
      if overlay && src.IsDir(p) && src.At(p).hidesLower then [Opq(p)] else []
    }

    /** The hard link part of addTarFile: the first entry of an inode is
        remembered, later ones become links to it. */
    method CheckHardlink(p: Path, hdr: Header) returns (hdr': Header, ghost link: Option<Path>)
      requires src.Has(p) && !src.IsDir(p) && HasHardlinks(src, p) && hdr == FileHeader(src.At(p), p, None)
      requires Remembers(src, overlay, items, seenFiles)
      modifies this`seenFiles
      ensures p !in SumOf(items).puts ==> LinkIsFirst(src, SumOf(items), p, link)
      ensures !Hidden(src, overlay, src.names[p]) ==> hdr' == FileHeader(src.At(p), p, link)
      ensures link.Some? ==> Put(link.value, None) in items
      ensures src.names[p] in seenFiles
      ensures RemembersUpTo(src, overlay, items, seenFiles, p, link)
      ensures Hidden(src, overlay, src.names[p]) ==> Remembers(src, overlay, items, seenFiles)
    {
      var inode := src.names[p];
      link := None;
      if inode in seenFiles {
        var oldpath := seenFiles[inode];
        hdr' := hdr.(typeflag := TypeLink, linkname := oldpath, data := "");
        if !Hidden(src, overlay, inode) {
          ghost var x :| IsFirst(src, items, inode, x) && oldpath == Join(x);
          PutIsInSum(items, x);
          link := Some(x);
        } else {
          HiddenIsNotPut(src, overlay, items, seenFiles, p);
        }
      } else {
        hdr' := hdr;
        seenFiles := seenFiles[inode := hdr.name];
      }
    }

    method WriteHeader(hdr: Header, ghost item: Item)
      requires EncodesAll(ArchivalTree(src), items, out) && Encodes(ArchivalTree(src), item, hdr)
      requires LinksNameFiles(items, out)
      requires hdr.typeflag.TypeLink? ==> item.Put? && item.link.Some? && Put(item.link.value, None) in items
      modifies this`out, this`items
      ensures out == old(out) + [hdr] && items == old(items) + [item]
      ensures EncodesAll(ArchivalTree(src), items, out) && LinksNameFiles(items, out)
    {
      hide Encodes, EncodesAll, LinksNameFiles;
      EncodedMore(ArchivalTree(src), items, out, item, hdr);
      out := out + [hdr];
      items := items + [item];
    }
  }

  // ----- the memory of hard links -----

  /** Whiteouts leave the inode of their device in the memory; no file that is
      put has such an inode. */
  ghost predicate Hidden(src: Tree, overlay: bool, i: Ino) {
    overlay && i in src.inodes && IsOverlayWhiteout(src.inodes[i])
  }

  /** The file of inode i that was put as a file. */
  ghost predicate IsFirst(src: Tree, items: seq<Item>, i: Ino, x: Path) {
    Put(x, None) in items && src.Has(x) && src.names[x] == i
  }

  ghost predicate Knows(src: Tree, s: Sum, seen: map<Ino, string>) {
    forall p | p in s.puts && src.Has(p) && p in src.names && !src.IsDir(p) && HasHardlinks(src, p) ::
      src.names[p] in seen
  }

  ghost predicate NoneHidden(src: Tree, overlay: bool, s: Sum) {
    forall p | p in s.puts :: src.Has(p) && !Hidden(src, overlay, src.names[p])
  }

  /** Every file with several names that was put is in the memory, and what the
      memory names was put as a file. */
  ghost predicate Remembers(src: Tree, overlay: bool, items: seq<Item>, seen: map<Ino, string>) {
    && NoneHidden(src, overlay, SumOf(items)) && Knows(src, SumOf(items), seen)
    && forall i | i in seen && !Hidden(src, overlay, i) :: exists x :: IsFirst(src, items, i, x) && seen[i] == Join(x)
  }

  /** The same while p is being written. */
  ghost predicate RemembersUpTo(src: Tree, overlay: bool, items: seq<Item>, seen: map<Ino, string>, p: Path,
                                link: Option<Path>) {
    && src.Has(p) && NoneHidden(src, overlay, SumOf(items)) && Knows(src, SumOf(items), seen)
    && forall i | i in seen && !Hidden(src, overlay, i) ::
         || (link.None? && i == src.names[p] && seen[i] == Join(p))
         || exists x :: IsFirst(src, items, i, x) && seen[i] == Join(x)
  }

  lemma HiddenIsNotPut(src: Tree, overlay: bool, items: seq<Item>, seen: map<Ino, string>, p: Path)
    requires Remembers(src, overlay, items, seen) && src.Has(p) && Hidden(src, overlay, src.names[p])
    ensures forall x | x in SumOf(items).puts && src.Has(x) :: src.names[x] != src.names[p]
  {
  }

  lemma {:induction false} PutIsInSum(items: seq<Item>, x: Path)
    requires Put(x, None) in items
    ensures x in SumOf(items).puts
    decreases |items|
  {
    var n := |items| - 1;
    assert items == items[..n] + [items[n]];
    if items[n] != Put(x, None) { PutIsInSum(items[..n], x); }
  }

  lemma RemembersPut(src: Tree, overlay: bool, items: seq<Item>, seen: map<Ino, string>, p: Path, link: Option<Path>)
    requires RemembersUpTo(src, overlay, items, seen, p, link) && p in src.names && !Hidden(src, overlay, src.names[p])
    requires !src.IsDir(p) && HasHardlinks(src, p) ==> src.names[p] in seen
    ensures Remembers(src, overlay, items + [Put(p, link)], seen)
  {
    var items' := items + [Put(p, link)];
    SumOfSnoc(items, Put(p, link));
    forall i | i in seen && !Hidden(src, overlay, i)
      ensures exists x :: IsFirst(src, items', i, x) && seen[i] == Join(x)
    {
      if link.None? && i == src.names[p] && seen[i] == Join(p) {
        assert IsFirst(src, items', i, p);
      } else {
        var x :| IsFirst(src, items, i, x) && seen[i] == Join(x);
        assert IsFirst(src, items', i, x);
      }
    }
  }

  lemma RemembersOther(src: Tree, overlay: bool, items: seq<Item>, seen: map<Ino, string>, item: Item)
    requires Remembers(src, overlay, items, seen) && !item.Put?
    ensures Remembers(src, overlay, items + [item], seen)
  {
  }

  // ----- hard links are closed -----

  /** Every link is to a file that was put before it. */
  ghost predicate LinksNameFiles(items: seq<Item>, out: seq<Header>) {
    |items| == |out| && forall i | 0 <= i < |out| && out[i].typeflag.TypeLink? ::
      items[i].Put? && items[i].link.Some? && Put(items[i].link.value, None) in items[..i]
  }

  /** Every link entry names an earlier entry that is no link. */
  ghost predicate HardlinksClosed(layer: seq<Header>) {
    forall i | 0 <= i < |layer| && layer[i].typeflag.TypeLink? :: NamesFile(layer, i, layer[i].linkname)
  }

  ghost predicate NamesFile(layer: seq<Header>, i: nat, name: string)
    requires i <= |layer|
  {
    exists j :: 0 <= j < i && layer[j].name == name && !layer[j].typeflag.TypeLink?
  }

  ghost predicate NamesSameInode(src: Tree, items: seq<Item>, layer: seq<Header>, i: nat)
    requires i < |layer| == |items|
  {
    && items[i].Put? && src.Has(items[i].path)
    && exists j :: 0 <= j < i && layer[j].name == layer[i].linkname && HasInode(src, items[j], src.names[items[i].path])
  }

  ghost predicate HasInode(src: Tree, item: Item, i: Ino) {
    item.Put? && item.link.None? && src.Has(item.path) && src.names[item.path] == i
  }

  /** Every link entry names an earlier file of its inode. */
  ghost predicate LinksShareInodes(src: Tree, items: seq<Item>, layer: seq<Header>) {
    |items| == |layer| &&
    forall i | 0 <= i < |layer| && layer[i].typeflag.TypeLink? :: NamesSameInode(src, items, layer, i)
  }

  /** What is written by addTarFile is closed, also when whiteouts are renamed:
      the entry that a link names is a file of the same inode. */
  lemma WrittenIsClosed(src: Tree, items: seq<Item>, layer: seq<Header>)
    requires src.Valid() && EncodesAll(ArchivalTree(src), items, layer) && InShape(src, items)
    requires LinksNameFiles(items, layer)
    ensures HardlinksClosed(layer) && LinksShareInodes(src, items, layer)
  {
    ArchivalNodes(src);
    forall i | 0 <= i < |layer| && layer[i].typeflag.TypeLink?
      ensures NamesFile(layer, i, layer[i].linkname)
      ensures NamesSameInode(src, items, layer, i)
    {
      var x := items[i].link.value;
      InShapeAt(src, items, i);
      assert Encodes(ArchivalTree(src), items[i], layer[i]);
      var j :| 0 <= j < i && items[j] == Put(x, None);
      assert Encodes(ArchivalTree(src), items[j], layer[j]);
      assert !src.IsDir(x);
      assert layer[j].name == Join(x) == layer[i].linkname;
    }
  }

  lemma FileIsEncoded(src: Tree, p: Path, link: Option<Path>, hdr: Header)
    requires src.Has(p) && hdr == FileHeader(src.At(p), p, link)
    ensures Encodes(ArchivalTree(src), Put(p, link), hdr)
  {
    ArchivalNodes(src);
  }

  lemma EncodedMore(src: Tree, items: seq<Item>, out: seq<Header>, item: Item, hdr: Header)
    requires EncodesAll(src, items, out) && Encodes(src, item, hdr) && LinksNameFiles(items, out)
    requires hdr.typeflag.TypeLink? ==> item.Put? && item.link.Some? && Put(item.link.value, None) in items
    ensures EncodesAll(src, items + [item], out + [hdr]) && LinksNameFiles(items + [item], out + [hdr])
  {
    var items', out' := items + [item], out + [hdr];
    forall i | 0 <= i < |out'| && out'[i].typeflag.TypeLink?
      ensures items'[i].Put? && items'[i].link.Some? && Put(items'[i].link.value, None) in items'[..i]
    {
      assert items'[..i] == items[..i];
      assert i == |items| ==> items[..i] == items;
    }
  }

  lemma SumOfSnoc(items: seq<Item>, item: Item)
    ensures SumOf(items + [item]) == Plus(SumOf(items), item)
  {
  }

  lemma WhiteoutPathIsOrdinary(p: Path)
    requires p != [] && OrdinaryPath(p)
    ensures WhiteoutPath(p) != [] && OrdinaryPath(WhiteoutPath(p))
  {
    assert Last(p) in p;
    WhiteoutOf(Last(p));
    forall n | n in WhiteoutPath(p) ensures Ordinary(n) {
      if n != WHITEOUT_PREFIX + Last(p) { assert n in Parent(p); assert n in p; }
    }
  }

  lemma WhiteoutIsEncoded(src: Tree, p: Path, hdr: Header)
    requires p != [] && OrdinaryPath(p) && hdr.name == Join(WhiteoutPath(p)) && hdr.typeflag.TypeReg?
    ensures Encodes(ArchivalTree(src), Del(p), hdr)
  {
    WhiteoutPathIsOrdinary(p);
    EntryNameReadsBack(WhiteoutPath(p));
  }

  lemma {:induction false} JoinSnoc(d: Path, n: Name)
    requires d != []
    ensures Join(d + [n]) == Join(d) + "/" + n
  {
    if |d| > 1 {
      assert (d + [n])[1..] == d[1..] + [n];
      JoinSnoc(d[1..], n);
    } else {
      assert (d + [n])[1..] == [n];
    }
  }

  lemma OpaqueIsEncoded(src: Tree, d: Path, hdr: Header)
    requires src.Valid() && d != [] && d in src.names && hdr.name == Join(d) + "/" + WHITEOUT_OPAQUE_DIR
    requires hdr.typeflag.TypeReg?
    ensures Encodes(ArchivalTree(src), Opq(d), hdr)
  {
    NamesAreOrdinary(src, d);
    OpaqueName();
    JoinSnoc(d, WHITEOUT_OPAQUE_DIR);
    forall n | n in OpaquePath(d) ensures Ordinary(n) {}
    EntryNameReadsBack(OpaquePath(d));
  }
}
