/** The directory layer: a directory is a file whose content is the text
    form of its entries. lookup reads and parses the parent; mk_helper
    allocates a block and an inode and rewrites the parent with one more
    record; unlink removes a non-directory through remove_file and rewrites
    the parent without the name. Each method is proved against a
    specification on disk images; the lemmas relate the operations to one
    another. */
module Directories {
  import opened Common
  import opened BlockStore
  import opened Inodes
  import opened InodeTable
  import opened FileOps
  import opened DirText

  /** Directory operations over a file layer. remove_file is not part of
      this model: the layer is built with its effect on a disk image
      (its status and the image it leaves), about which nothing is assumed
      beyond keeping the image's shape. */
  class DirectoryOps {
    const fs: FileOperation
    const removeFile: (seq<seq<u8>>, u64) -> (Status, seq<seq<u8>>)

    constructor(fs: FileOperation, removeFile: (seq<seq<u8>>, u64) -> (Status, seq<seq<u8>>))
      requires fs.Wired() && KeepsShape(fs.bm.blockSize, fs.bm.totalBlocks, removeFile)
      ensures this.fs == fs && this.removeFile == removeFile
    {
      this.fs, this.removeFile := fs, removeFile;
    }

    static ghost predicate KeepsShape(blockSize: nat, totalBlocks: nat,
                                      remove: (seq<seq<u8>>, u64) -> (Status, seq<seq<u8>>))
    {
      forall disk, id :: DiskShape(disk, blockSize, totalBlocks) ==> DiskShape(remove(disk, id).1, blockSize, totalBlocks)
    }

    ghost predicate Valid()
      reads fs.bm
    {
      fs.Valid() && KeepsShape(fs.bm.blockSize, fs.bm.totalBlocks, removeFile)
    }

    // -------------------------------------------------------------------
    // Specifications

    /** read_directory: the parsed content of the file, or the error of
        reading it. */
    ghost function ReadDirectorySpec(disk: seq<seq<u8>>, id: nat): (r: Result<seq<DirEntry>>)
      requires fs.Fits(disk) && fs.FileShaped(disk, id)
      ensures r.Err? <==> fs.im.RecordOf(disk, id).Err?
      ensures r.Err? ==> r.error == fs.im.RecordOf(disk, id).error
      ensures r.Ok? ==> AllPlain(r.value) && r.value == ParseDirectory(fs.ReadFileSpec(disk, id).value)
    {
      match fs.ReadFileSpec(disk, id)
      case Err(e) => Err(e)
      case Ok(content) =>
        ParsedPlain(content);
        Ok(ParseDirectory(content))
    }

    /** The list lookup, mk_helper and unlink work on: they start from an
        empty list and ignore read_directory's status, so a parent that
        cannot be read lists no entries. */
    ghost function Listing(disk: seq<seq<u8>>, id: nat): (l: seq<DirEntry>)
      requires fs.Fits(disk) && fs.FileShaped(disk, id)
      ensures AllPlain(l)
      ensures fs.im.RecordOf(disk, id).Err? ==> l == []
    {
      var r := ReadDirectorySpec(disk, id);
      if r.Ok? then r.value else []
    }

    /** lookup: the id of the first entry of the parent named name, or
        NotExist. */
    ghost function LookupSpec(disk: seq<seq<u8>>, parent: nat, name: seq<u8>): (r: Result<u64>)
      requires fs.Fits(disk) && fs.FileShaped(disk, parent)
      ensures r.Err? <==> forall i :: 0 <= i < |Listing(disk, parent)| ==> Listing(disk, parent)[i].name != name
      ensures r.Err? ==> r.error == NotExist
      ensures r.Ok? ==> exists i :: 0 <= i < |Listing(disk, parent)|
                          && Listing(disk, parent)[i] == DirEntry(name, r.value)
                          && forall j :: 0 <= j < i ==> Listing(disk, parent)[j].name != name
    {
      match FindEntry(Listing(disk, parent), name)
      case Some(id) => Ok(id)
      case None => Err(NotExist)
    }

    /** The new content of the parent in mk_helper: its listing with the
        record of (name, id) appended. */
    ghost function MkContent(disk: seq<seq<u8>>, parent: nat, name: seq<u8>, id: u64): (s: seq<u8>)
      requires fs.Fits(disk) && fs.FileShaped(disk, parent)
      ensures PlainName(name) ==> ParseDirectory(s) == Listing(disk, parent) + [DirEntry(name, id)]
    {
      var l := Listing(disk, parent);
      assert PlainName(name) ==> ParseDirectory(AppendToDirectory(DirListToString(l), name, id)) == l + [DirEntry(name, id)] by {
        if PlainName(name) {
          ParseAppend(l, name, id);
        }
      }
      AppendToDirectory(DirListToString(l), name, id)
    }

    /** What mk_helper needs beyond a readable parent: after the allocations
        the parent's record is still one write_file can work on, and the new
        content fits in 64 bits. */
    ghost predicate MkHelperDefined(disk: seq<seq<u8>>, parent: nat, name: seq<u8>, kind: InodeType, now: u64)
      requires fs.Fits(disk)
    {
      && fs.FileShaped(disk, parent)
      && var a := fs.AllocInodeSpec(disk, kind, now);
         a.0.Ok? ==> && fs.FileShaped(a.1, parent)
                     && |MkContent(disk, parent, name, a.0.value)| < 0x1_0000_0000_0000_0000
    }

    /** mk_helper: AlreadyExist if the name is listed; otherwise the block
        and inode allocation of alloc_inode, whose error is returned as is;
        then the parent is rewritten (write_file's status is ignored) and
        the new id returned. */
    ghost function MkHelperSpec(disk: seq<seq<u8>>, parent: nat, name: seq<u8>, kind: InodeType, now: u64)
      : (res: (Result<u64>, seq<seq<u8>>))
      requires fs.Fits(disk) && MkHelperDefined(disk, parent, name, kind, now)
      ensures fs.Fits(res.1)
    {
      if FindEntry(Listing(disk, parent), name).Some? then (Err(AlreadyExist), disk)
      else
        var a := fs.AllocInodeSpec(disk, kind, now);
        if a.0.Err? then (Err(a.0.error), a.1)
        else
          var content := MkContent(disk, parent, name, a.0.value);
          (Ok(a.0.value), fs.WriteFileSpec(a.1, parent, content, now).Disk())
    }

    /** The content unlink writes to the parent: its listing after the
        removal, without the records named name. */
    ghost function RmContent(disk: seq<seq<u8>>, parent: nat, name: seq<u8>): (s: seq<u8>)
      requires fs.Fits(disk) && fs.FileShaped(disk, parent)
      ensures ParseDirectory(s) == Without(Listing(disk, parent), name)
    {
      RmFromListing(Listing(disk, parent), name);
      RmFromDirectory(DirListToString(Listing(disk, parent)), name)
    }

    /** The target's record, when name is listed and read_inode accepts
        the listed id. */
    ghost function Target(disk: seq<seq<u8>>, parent: nat, name: seq<u8>): (r: Option<(u64, Inode)>)
      requires fs.Fits(disk) && fs.FileShaped(disk, parent)
      ensures r.Some? ==> && LookupSpec(disk, parent, name) == Ok(r.value.0)
                          && fs.im.RecordOf(disk, r.value.0) == Ok(r.value.1)
      ensures r.None? ==> LookupSpec(disk, parent, name).Err? || fs.im.RecordOf(disk, LookupSpec(disk, parent, name).value).Err?
    {
      var look := LookupSpec(disk, parent, name);
      if look.Err? then None
      else
        match fs.im.RecordOf(disk, look.value)
        case Err(_) => None
        case Ok(ino) => Some((look.value, ino))
    }

    /** The checks of unlink before anything changes: the error of lookup;
        the error of read_inode on the listed id; NotEmpty for any
        directory; otherwise the target's id. */
    ghost function UnlinkCheck(disk: seq<seq<u8>>, parent: nat, name: seq<u8>): (r: Result<u64>)
      requires fs.Fits(disk) && fs.FileShaped(disk, parent)
      ensures r.Ok? <==> Target(disk, parent, name).Some? && Target(disk, parent, name).value.1.kind != Directory
      ensures r.Ok? ==> r.value == Target(disk, parent, name).value.0
    {
      var look := LookupSpec(disk, parent, name);
      if look.Err? then Err(look.error)
      else
        match fs.im.RecordOf(disk, look.value)
        case Err(e) => Err(e)
        case Ok(ino) => if ino.kind == Directory then Err(NotEmpty) else Ok(look.value)
    }

    /** What unlink needs beyond a readable parent: once remove_file has
        succeeded, the parent is still readable and its new content fits
        in 64 bits. */
    ghost predicate UnlinkDefined(disk: seq<seq<u8>>, parent: nat, name: seq<u8>)
      requires fs.Fits(disk) && KeepsShape(fs.bm.blockSize, fs.bm.totalBlocks, removeFile)
    {
      && fs.FileShaped(disk, parent)
      && var c := UnlinkCheck(disk, parent, name);
         c.Ok? && removeFile(disk, c.value).0 == Done ==>
           var disk' := removeFile(disk, c.value).1;
           && fs.FileShaped(disk', parent)
           && |RmContent(disk', parent, name)| < 0x1_0000_0000_0000_0000
    }

    /** unlink: the error of its checks, or of remove_file; otherwise the
        parent is rewritten without the name (write_file's status is
        ignored). */
    ghost function UnlinkSpec(disk: seq<seq<u8>>, parent: nat, name: seq<u8>, now: u64): (res: (Status, seq<seq<u8>>))
      requires fs.Fits(disk) && KeepsShape(fs.bm.blockSize, fs.bm.totalBlocks, removeFile)
      requires UnlinkDefined(disk, parent, name)
      ensures fs.Fits(res.1)
    {
      match UnlinkCheck(disk, parent, name)
      case Err(e) => (Fail(e), disk)
      case Ok(t) =>
        var (st, disk') := removeFile(disk, t);
        if st.Fail? then (st, disk')
        else (Done, fs.WriteFileSpec(disk', parent, RmContent(disk', parent, name), now).Disk())
    }

    // -------------------------------------------------------------------
    // Properties

    /** write_file of content to id succeeds and the file's blocks do not
        alias one another, its record block or the metadata; id is not 0,
        whose wrapped table entry lies outside the table. */
    ghost predicate Lands(disk: seq<seq<u8>>, id: nat, content: seq<u8>, now: u64)
      requires fs.Fits(disk)
    {
      && id >= 1 && fs.FileShaped(disk, id) && |content| < 0x1_0000_0000_0000_0000
      && fs.WriteFileSpec(disk, id, content, now).Next?
      && fs.im.ReadInodeSpec(disk, id).0.Ok?
      && fs.Separated(fs.WriteFileSpec(disk, id, content, now).st, |content|, fs.im.ReadInodeSpec(disk, id).0.value)
    }

    /** A directory written in full lists the entries its content parses to. */
    lemma Landed(disk: seq<seq<u8>>, id: nat, content: seq<u8>, now: u64)
      requires fs.Fits(disk) && Lands(disk, id, content, now)
      ensures var d := fs.WriteFileSpec(disk, id, content, now).Disk();
              fs.FileShaped(d, id) && Listing(d, id) == ParseDirectory(content)
    {
      fs.WriteThenRead(disk, id, content, now);
    }

    /** mk_helper's outcomes: a listed name is refused with AlreadyExist and
        nothing allocated; otherwise, with the metadata reserved, it fails
        exactly when no block or no inode id is free, and a new id is never 0. */
    lemma MkHelperOutcomes(disk: seq<seq<u8>>, parent: nat, name: seq<u8>, kind: InodeType, now: u64)
      requires fs.Fits(disk) && MkHelperDefined(disk, parent, name, kind, now)
      ensures LookupSpec(disk, parent, name).Ok? ==> MkHelperSpec(disk, parent, name, kind, now) == (Err(AlreadyExist), disk)
      ensures LookupSpec(disk, parent, name).Err? && fs.MetadataReserved(disk) ==>
                var a := fs.alloc.AllocateSpec(disk);
                (MkHelperSpec(disk, parent, name, kind, now).0.Err? <==> a.0.Err? || fs.im.FreeInodeCount(a.1) == 0)
      ensures MkHelperSpec(disk, parent, name, kind, now).0.Ok? ==> MkHelperSpec(disk, parent, name, kind, now).0.value >= 1
    {
      if LookupSpec(disk, parent, name).Err? && fs.MetadataReserved(disk) {
        fs.AllocInodeOutcomes(disk, kind, now);
      }
    }

    /** After mk_helper creates name, the parent lists its old entries and
        then the new one, so lookup finds the new id under name and any
        other name as before, when the rewrite of the parent lands. */
    lemma MkThenLookup(disk: seq<seq<u8>>, parent: nat, name: seq<u8>, other: seq<u8>, kind: InodeType, now: u64)
      requires fs.Fits(disk) && MkHelperDefined(disk, parent, name, kind, now) && PlainName(name)
      requires MkHelperSpec(disk, parent, name, kind, now).0.Ok?
      requires var a := fs.AllocInodeSpec(disk, kind, now);
               a.0.Ok? && Lands(a.1, parent, MkContent(disk, parent, name, a.0.value), now)
      ensures var (r, disk') := MkHelperSpec(disk, parent, name, kind, now);
              && fs.FileShaped(disk', parent)
              && Listing(disk', parent) == Listing(disk, parent) + [DirEntry(name, r.value)]
              && LookupSpec(disk', parent, name) == Ok(r.value)
              && (other != name ==> LookupSpec(disk', parent, other) == LookupSpec(disk, parent, other))
    {
      var a := fs.AllocInodeSpec(disk, kind, now);
      var l := Listing(disk, parent);
      var e := DirEntry(name, a.0.value);
      Landed(a.1, parent, MkContent(disk, parent, name, a.0.value), now);
      FindSnoc(l, e, name);
      FindSnoc(l, e, other);
    }

    /** unlink of a name the parent does not list is NotExist and leaves
        the disk as it was. */
    lemma UnlinkAbsent(disk: seq<seq<u8>>, parent: nat, name: seq<u8>, now: u64)
      requires fs.Fits(disk) && KeepsShape(fs.bm.blockSize, fs.bm.totalBlocks, removeFile)
      requires UnlinkDefined(disk, parent, name)
      ensures FindEntry(Listing(disk, parent), name).None? ==> UnlinkSpec(disk, parent, name, now) == (Fail(NotExist), disk)
    {
    }

    /** unlink of a directory is NotEmpty, whatever the directory holds,
        and leaves the disk as it was. */
    lemma UnlinkDirectory(disk: seq<seq<u8>>, parent: nat, name: seq<u8>, now: u64)
      requires fs.Fits(disk) && KeepsShape(fs.bm.blockSize, fs.bm.totalBlocks, removeFile)
      requires UnlinkDefined(disk, parent, name)
      requires Target(disk, parent, name).Some? && Target(disk, parent, name).value.1.kind == Directory
      ensures UnlinkSpec(disk, parent, name, now) == (Fail(NotEmpty), disk)
    {
    }

    /** A successful unlink had a non-directory target that remove_file
        accepted, and rewrote the parent with the name removed. */
    lemma UnlinkSucceeded(disk: seq<seq<u8>>, parent: nat, name: seq<u8>, now: u64)
      requires fs.Fits(disk) && KeepsShape(fs.bm.blockSize, fs.bm.totalBlocks, removeFile)
      requires UnlinkDefined(disk, parent, name)
      requires UnlinkSpec(disk, parent, name, now).0 == Done
      ensures var t := Target(disk, parent, name);
              && t.Some? && t.value.1.kind != Directory && removeFile(disk, t.value.0).0 == Done
              && var removed := removeFile(disk, t.value.0).1;
                 UnlinkSpec(disk, parent, name, now).1
                   == fs.WriteFileSpec(removed, parent, RmContent(removed, parent, name), now).Disk()
    {
    }

    /** After unlink removes name, lookup no longer finds it, and finds
        every other name as it did once remove_file had run, when the
        rewrite of the parent lands. */
    lemma UnlinkThenLookup(disk: seq<seq<u8>>, parent: nat, name: seq<u8>, other: seq<u8>, now: u64)
      requires fs.Fits(disk) && KeepsShape(fs.bm.blockSize, fs.bm.totalBlocks, removeFile)
      requires UnlinkDefined(disk, parent, name)
      requires UnlinkSpec(disk, parent, name, now).0 == Done
      requires var t := Target(disk, parent, name);
               && t.Some?
               && var removed := removeFile(disk, t.value.0).1;
                  fs.FileShaped(removed, parent) && Lands(removed, parent, RmContent(removed, parent, name), now)
      ensures var t := Target(disk, parent, name);
              var removed := removeFile(disk, t.value.0).1;
              var disk' := UnlinkSpec(disk, parent, name, now).1;
              && fs.FileShaped(disk', parent)
              && Listing(disk', parent) == Without(Listing(removed, parent), name)
              && LookupSpec(disk', parent, name) == Err(NotExist)
              && (other != name ==> LookupSpec(disk', parent, other) == LookupSpec(removed, parent, other))
    {
      var t := Target(disk, parent, name);
      var removed := removeFile(disk, t.value.0).1;
      UnlinkSucceeded(disk, parent, name, now);
      RewriteWithout(removed, parent, name, other, now);
    }

    /** Rewriting a directory with the text of rm_from_directory: it lists
        its old entries without name, so name is not found and any other
        name is found as before. */
    lemma RewriteWithout(disk: seq<seq<u8>>, parent: nat, name: seq<u8>, other: seq<u8>, now: u64)
      requires fs.Fits(disk) && fs.FileShaped(disk, parent)
      requires Lands(disk, parent, RmContent(disk, parent, name), now)
      ensures var disk' := fs.WriteFileSpec(disk, parent, RmContent(disk, parent, name), now).Disk();
              && fs.FileShaped(disk', parent)
              && Listing(disk', parent) == Without(Listing(disk, parent), name)
              && LookupSpec(disk', parent, name) == Err(NotExist)
              && (other != name ==> LookupSpec(disk', parent, other) == LookupSpec(disk, parent, other))
    {
      var l := Listing(disk, parent);
      Landed(disk, parent, RmContent(disk, parent, name), now);
      FindWithout(l, name, other);
    }

    // -------------------------------------------------------------------
    // Operations

    /** read_directory into an empty list. */
    method ReadDirectory(id: u64) returns (r: Status, list: seq<DirEntry>)
      requires Valid() && fs.FileShaped(fs.bm.blocks, id)
      ensures r.Fail? <==> ReadDirectorySpec(fs.bm.blocks, id).Err?
      ensures r.Fail? ==> r.error == ReadDirectorySpec(fs.bm.blocks, id).error
      ensures list == Listing(fs.bm.blocks, id)
    {
      var res := fs.ReadFile(id);
      if res.Err? {
        return Fail(res.error), [];
      }
      r, list := Done, ParseDirectory(res.value);
    }

    /** The first entry named name, scanning the list in order. */
    static method FindInList(list: seq<DirEntry>, name: seq<u8>) returns (r: Option<u64>)
      ensures r == FindEntry(list, name)
    {
      var i := 0;
      while i < |list|
        invariant i <= |list|
        invariant forall j :: 0 <= j < i ==> list[j].name != name
      {
        if list[i].name == name {
          FirstMatch(list, name, i);
          return Some(list[i].id);
        }
        i := i + 1;
      }
      return None;
    }

    /** The first entry named name is the one FindEntry returns. */
    static lemma FirstMatch(list: seq<DirEntry>, name: seq<u8>, i: nat)
      requires i < |list| && list[i].name == name
      requires forall j :: 0 <= j < i ==> list[j].name != name
      ensures FindEntry(list, name) == Some(list[i].id)
    {
      var r := FindEntry(list, name);
      var i' :| 0 <= i' < |list| && list[i'].name == name && list[i'].id == r.value
                && forall j :: 0 <= j < i' ==> list[j].name != name;
      assert list[i'].id == list[i].id;
    }

    method Lookup(parent: u64, name: seq<u8>) returns (r: Result<u64>)
      requires Valid() && fs.FileShaped(fs.bm.blocks, parent)
      ensures r == LookupSpec(fs.bm.blocks, parent, name)
    {
      var _, list := ReadDirectory(parent);
      var found := FindInList(list, name);
      if found.Some? {
        return Ok(found.value);
      }
      return Err(NotExist);
    }

    method MkHelper(parent: u64, name: seq<u8>, kind: InodeType, now: u64) returns (r: Result<u64>)
      requires Valid() && MkHelperDefined(fs.bm.blocks, parent, name, kind, now)
      modifies fs.bm
      ensures Valid()
      ensures r == MkHelperSpec(old(fs.bm.blocks), parent, name, kind, now).0
      ensures fs.bm.blocks == MkHelperSpec(old(fs.bm.blocks), parent, name, kind, now).1
    {
      ghost var disk := fs.bm.blocks;
      var _, list := ReadDirectory(parent);
      var found := FindInList(list, name);
      if found.Some? {
        return Err(AlreadyExist);
      }
      var a := fs.alloc.Allocate();
      if a.Err? {
        fs.alloc.AllocateIsFirstFit(disk);
        return Err(a.error);
      }
      var inode := fs.im.AllocateInode(kind, a.value as u64, now);
      if inode.Err? {
        return Err(inode.error);
      }
      var content := AppendToDirectory(DirListToString(list), name, inode.value);
      assert content == MkContent(disk, parent, name, inode.value);
      var _ := fs.WriteFile(parent, content, now);
      return Ok(inode.value);
    }

    /** remove_file, as the effect the layer was built with. */
    method RemoveFile(id: u64) returns (r: Status)
      requires Valid()
      modifies fs.bm
      ensures Valid()
      ensures r == removeFile(old(fs.bm.blocks), id).0 && fs.bm.blocks == removeFile(old(fs.bm.blocks), id).1
    {
      var (st, disk) := removeFile(fs.bm.blocks, id);
      fs.bm.blocks := disk;
      r := st;
    }

    method Unlink(parent: u64, name: seq<u8>, now: u64) returns (r: Status)
      requires Valid() && UnlinkDefined(fs.bm.blocks, parent, name)
      modifies fs.bm
      ensures Valid()
      ensures r == UnlinkSpec(old(fs.bm.blocks), parent, name, now).0
      ensures fs.bm.blocks == UnlinkSpec(old(fs.bm.blocks), parent, name, now).1
    {
      var check := CheckUnlink(parent, name);
      if check.Err? {
        return Fail(check.error);
      }
      var removed := RemoveFile(check.value);
      if removed.Fail? {
        return removed;
      }
      RemoveEntry(parent, name, now);
      return Done;
    }

    /** The checks of unlink: lookup, read_inode and the type test. */
    method CheckUnlink(parent: u64, name: seq<u8>) returns (r: Result<u64>)
      requires Valid() && fs.FileShaped(fs.bm.blocks, parent)
      ensures r == UnlinkCheck(fs.bm.blocks, parent, name)
    {
      var look := Lookup(parent, name);
      if look.Err? {
        return Err(look.error);
      }
      var target := look.value;
      var res, buffer := fs.im.ReadInode(target);
      if res.Err? {
        return Err(res.error);
      }
      if DecodeInode(buffer).kind == Directory {
        return Err(NotEmpty);
      }
      return Ok(target);
    }

    /** The last step of unlink: the parent rewritten without name, with
        write_file's status ignored. */
    method RemoveEntry(parent: u64, name: seq<u8>, now: u64)
      requires Valid() && fs.FileShaped(fs.bm.blocks, parent)
      requires |RmContent(fs.bm.blocks, parent, name)| < 0x1_0000_0000_0000_0000
      modifies fs.bm
      ensures Valid()
      ensures fs.bm.blocks == fs.WriteFileSpec(old(fs.bm.blocks), parent, RmContent(old(fs.bm.blocks), parent, name), now).Disk()
    {
      var _, list := ReadDirectory(parent);
      var src := DirListToString(list);
      src := RmFromDirectory(src, name);
      var _ := fs.WriteFile(parent, src, now);
    }
  }
}
