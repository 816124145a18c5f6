/** Entries that are refused or skipped: names and link targets that lead out of the
    root, metadata, and whiteouts with odd names. */
module Refusals {
  import opened Names
  import opened Cleaning
  import opened Errors
  import opened Trees
  import opened Headers
  import opened RootFs
  import opened Extract
  import opened Plain
  import opened Layers

  // ----- names that lead outside -----

  /** At some component the name has gone up more often than down. */
  ghost predicate LeadsOutside(name: string) {
    exists k :: 0 <= k <= |Split(name)| && Depth(Split(name)[..k]) < 0
  }

  /** The name is that of its start: it comes back as often as it leaves. */
  predicate LeadsNowhere(name: string) {
    Depth(Split(name)) == 0
  }

  lemma InsideOrNot(name: string)
    requires !(name != "" && name[0] == '/')
    ensures Clean(name).Inside() <==> !LeadsOutside(name)
    ensures !LeadsOutside(name) ==> (Clean(name).names == [] <==> LeadsNowhere(name))
  {
    CleanedDepth(Split(name));
    var c := Clean(name);
    if c.ups == 0 { assert forall k | 0 <= k <= |Split(name)| :: Depth(Split(name)[..k]) + c.ups >= 0; }
  }

  /** An entry is refused exactly if its name, without slashes at the beginning, leads
      outside at any point; then nothing is done.  One that leads nowhere is skipped,
      and so is a global header. */
  lemma OutsideIsRefused(opts: Options, s: UntarState, ls: LayerState, hdr: Header)
    ensures var name := TrimLeftSlashes(hdr.name);
      && (ApplyEntry(ls, hdr) == Stopped(ls, InvalidEntryName) <== LeadsOutside(name))
      && (UntarEntry(opts, s, hdr) == Fails(s.tree, InvalidEntryName)
          <== LeadsOutside(name) && !hdr.typeflag.TypeXGlobalHeader?)
      && (ApplyEntry(ls, hdr) == Going(ls) <== !LeadsOutside(name) && LeadsNowhere(name))
      && (UntarEntry(opts, s, hdr) == Continues(s)
          <== hdr.typeflag.TypeXGlobalHeader? || (!LeadsOutside(name) && LeadsNowhere(name)))
  {
    InsideOrNot(TrimLeftSlashes(hdr.name));
  }

  /** A link target is refused if it leads outside or nowhere; slashes at its
      beginning do not matter. */
  lemma OutsideTargetIsRefused(t: Tree, x: string, target: string)
    requires OnlySlashes(x) && (target == "" || target[0] != '/')
    ensures LeadsOutside(target) || LeadsNowhere(target) ==>
      ResolveHardlinkTarget(t, x + target) == Missing(InvalidLinkTarget)
    ensures ResolveHardlinkTarget(t, x + target) == ResolveHardlinkTarget(t, target)
  {
    InsideOrNot(target);
    TrimmedLeft(x, target);
    if x == "" { assert x + target == target; } else { assert x[0] in x; }
  }

  /** A link entry whose target is refused creates nothing. */
  lemma LinkIsRefused(t: Tree, dst: Path, hdr: Header)
    requires hdr.typeflag.TypeLink? && !(hdr.linkname != "" && hdr.linkname[0] == '/')
    requires LeadsOutside(hdr.linkname) || LeadsNowhere(hdr.linkname)
    ensures CreateTarFile(t, dst, hdr) == Bad(t, InvalidLinkTarget)
  {
    OutsideTargetIsRefused(t, "", hdr.linkname);
    assert "" + hdr.linkname == hdr.linkname;
  }

  // ----- links into the directory of AUFS -----

  /** A link target in the directory of AUFS is one whose first name begins like that
      of the directory; targets with a leading slash or outside are none. */
  lemma AufsTargets(hdr: Header, p: Path)
    ensures p != [] && OrdinaryPath(p) && hdr.linkname == Join(p) ==>
      (LinksIntoAufs(hdr) <==> hdr.typeflag.TypeLink? && ".wh..wh.plnk" <= p[0])
    ensures hdr.linkname != "" && hdr.linkname[0] == '/' ==> !LinksIntoAufs(hdr)
    ensures LeadsOutside(hdr.linkname) || LeadsNowhere(hdr.linkname) ==> !LinksIntoAufs(hdr)
  {
    if p != [] && OrdinaryPath(p) && hdr.linkname == Join(p) { EntryNameReadsBack(p); }
    if !(hdr.linkname != "" && hdr.linkname[0] == '/') { InsideOrNot(hdr.linkname); }
  }

  /** Such a link is an error of the layer, after its place has been cleared. */
  lemma AufsLinkIsRefused(ls: LayerState, t: Tree, p: Path, hdr: Header)
    requires t.Valid() && InDir(t, p) && LinksIntoAufs(hdr)
    ensures ApplyFile(ls, t, p, hdr) == Stopped(ls.(tree := RemoveAt(t, p)), InvalidAufsHardlink)
  {
    if p in t.names { LstatPlain(t, p); } else { LocatePlain(t, p); }
    RemoveAllPlain(t, p);
  }

  // ----- kinds that must be kept -----

  /** Where directories and other files must not replace each other, such an entry is
      refused and nothing is done. */
  lemma KindsAreKept(s: UntarState, overlay: bool, hdr: Header, p: Path)
    requires s.tree.Valid() && p in s.tree.names && p != [] && EntryName(hdr) == Cleaned(false, 0, p)
    requires !hdr.typeflag.TypeXGlobalHeader?
    ensures s.tree.IsDir(p) != hdr.typeflag.TypeDir? ==>
      UntarEntry(Options(overlay, true), s, hdr) == Fails(s.tree, CannotOverwrite)
  {
    assert s.tree.IsDir(Parent(p));
    ArchivePathPlain(s.tree, p);
    LstatPlain(s.tree, p);
  }

  // ----- types that are not extracted -----

  predicate OutOfRange(hdr: Header) {
    !(0 <= hdr.devmajor < 0x1_0000_0000 && 0 <= hdr.devminor < 0x1_0000_0000)
  }

  /** Types without a meaning here and device numbers out of range are refused; a global
      header makes nothing. */
  lemma OtherTypes(t: Tree, dst: Path, hdr: Header)
    ensures hdr.typeflag.TypeOther? ==> CreateTarFile(t, dst, hdr) == Bad(t, UnhandledType)
    ensures hdr.typeflag.TypeXGlobalHeader? ==> CreateTarFile(t, dst, hdr) == Fine(t)
    ensures hdr.typeflag in {TypeBlock, TypeChar, TypeFifo} && OutOfRange(hdr) ==>
      CreateTarFile(t, dst, hdr) == Bad(t, DeviceOutOfRange)
  {
  }

  // ----- whiteouts with odd names -----

  /** In a layer a whiteout with the remainder "" or "." removes its own directory and
      one with ".." the directory above. */
  lemma OddWhiteoutRemoves(ls: LayerState, t: Tree, d: Path, remainder: string)
    requires t.Valid() && t.IsDir(d) && d != [] && remainder in ["", ".", ".."]
    ensures OrdinaryPath(d + [WHITEOUT_PREFIX + remainder]) && IsWhiteoutName(Last(d + [WHITEOUT_PREFIX + remainder]))
    ensures var gone := if remainder == ".." then Parent(d) else d;
      gone != [] ==> ApplyWhiteout(ls, t, d + [WHITEOUT_PREFIX + remainder]) == Going(ls.(tree := RemoveAt(t, gone)))
  {
    var base := WHITEOUT_PREFIX + remainder;
    OddName(remainder);
    ParentOf(d, base);
    NamesAreOrdinary(t, d);
    forall n | n in d + [base] ensures Ordinary(n) {}
    var gone := if remainder == ".." then Parent(d) else d;
    assert base[|WHITEOUT_PREFIX|..] == remainder;
    OddJoin(d, remainder);
    if gone != [] {
      assert gone in t.names by { assert t.IsDir(Parent(d)); }
      assert t.IsDir(Parent(gone));
      RemoveAllPlain(t, gone);
    }
  }

  lemma OddName(remainder: string)
    requires remainder in ["", ".", ".."]
    ensures Ordinary(WHITEOUT_PREFIX + remainder) && IsWhiteoutName(WHITEOUT_PREFIX + remainder)
    ensures WHITEOUT_PREFIX + remainder != WHITEOUT_OPAQUE_DIR
    ensures WHITEOUT_PREFIX + remainder in [WHITEOUT_PREFIX, WHITEOUT_PREFIX + ".", WHITEOUT_PREFIX + ".."]
  {
    assert |WHITEOUT_PREFIX + remainder| <= 6 < |WHITEOUT_OPAQUE_DIR|;
    assert WHITEOUT_PREFIX + "" == WHITEOUT_PREFIX;
  }

  lemma OddJoin(d: Path, remainder: string)
    requires d != [] && OrdinaryPath(d) && remainder in ["", ".", ".."]
    ensures JoinClean(d, remainder) == Cleaned(false, 0, if remainder == ".." then Parent(d) else d)
  {
    assert '/' !in remainder;
    CleanOne(Cleaned(false, 0, d), remainder);
  }

  /** At the root these are errors. */
  lemma OddWhiteoutAtRoot(ls: LayerState, t: Tree, remainder: string)
    requires remainder in ["", ".", ".."]
    ensures OrdinaryPath([WHITEOUT_PREFIX + remainder]) && IsWhiteoutName(Last([WHITEOUT_PREFIX + remainder]))
    ensures ApplyWhiteout(ls, t, [WHITEOUT_PREFIX + remainder]) ==
      Stopped(ls.(tree := t), if remainder == ".." then EscapesByDotDot else Invalid)
  {
    hide RemoveAll, Ordinary, JoinClean;
    var base := WHITEOUT_PREFIX + remainder;
    OddName(remainder);
    assert base[|WHITEOUT_PREFIX|..] == remainder && Parent([base]) == [];
    OddAtRoot(t, remainder);
  }

  lemma OddAtRoot(t: Tree, remainder: string)
    requires remainder in ["", ".", ".."] && '/' !in remainder
    ensures RemoveJoined(t, JoinClean([], remainder)) == Bad(t, if remainder == ".." then EscapesByDotDot else Invalid)
  {
    CleanOne(Cleaned(false, 0, []), remainder);
  }

  /** In overlay format such a whiteout is refused. */
  lemma OddWhiteoutIsRefused(t: Tree, d: Path, remainder: string, hdr: Header)
    requires remainder in ["", ".", ".."]
    ensures ConvertRead(t, d + [WHITEOUT_PREFIX + remainder], hdr) == Handled(Bad(t, InvalidWhiteout))
  {
    OddName(remainder);
    ParentOf(d, WHITEOUT_PREFIX + remainder);
  }

  /** So is one for a name that exists. */
  lemma WhiteoutOverFileIsRefused(t: Tree, p: Path, hdr: Header)
    requires t.Valid() && p in t.names && p != [] && !NamesMarker(p)
    ensures ConvertRead(t, WhiteoutPath(p), hdr) == Handled(Bad(t, Exists))
  {
    assert t.IsDir(Parent(p));
    WhiteoutOf(Last(p));
    ParentOf(Parent(p), WHITEOUT_PREFIX + Last(p));
    ParentAndLast(p);
    FollowPlain(t, Parent(p));
  }
}
