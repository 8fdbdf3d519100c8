// The callback registry, the extension dispatcher, the auxiliary-chain builder
// and the current-image setters of DevIL's il_register.c.
module IlRegister {
  import opened IlTypes
  import opened ExtCompare

  /** An opaque IL_LOADPROC or IL_SAVEPROC: what the handler does is outside this model. */
  type ProcId = nat

  /** One iFormatL / iFormatS node: the registry's own copy of the extension and its handler. */
  datatype Entry = Entry(ext: string, proc: ProcId)

  // ---------------------------------------------------------------------------
  // Specification functions
  // ---------------------------------------------------------------------------

  /** Position of the first entry whose extension equals `ext` ignoring case
      (the scan of ilRemoveLoad, ilRemoveSave, iRegisterLoad, iRegisterSave). */
  function FirstMatch(procs: seq<Entry>, ext: string): (r: Option<nat>)
    ensures r.Some? ==> r.value < |procs| && SameExt(ext, procs[r.value].ext)
    ensures r.Some? ==> forall j :: 0 <= j < r.value ==> !SameExt(ext, procs[j].ext)
    ensures r.None? ==> forall j :: 0 <= j < |procs| ==> !SameExt(ext, procs[j].ext)
  {
    if |procs| == 0 then None
    else if SameExt(ext, procs[0].ext) then Some(0)
    else match FirstMatch(procs[1..], ext)
      case None => None
      case Some(i) => Some(i + 1)
  }

  /** The duplicate test of ilRegisterLoad/ilRegisterSave as written: the scan
      advances before it compares, so only entries after the head are looked at. */
  predicate LaterMatch(procs: seq<Entry>, ext: string)
    ensures |procs| <= 1 ==> !LaterMatch(procs, ext)
  {
    exists i :: 1 <= i < |procs| && SameExt(procs[i].ext, ext)
  }

  /** The list after a registration whose node allocation succeeded. The ensures
      spell out the two outcomes for readers; the proved content about them is
      in the lemmas of RegisterProps. */
  function Registered(procs: seq<Entry>, ext: string, proc: ProcId): (r: seq<Entry>)
    ensures LaterMatch(procs, ext) ==> r == procs
    ensures !LaterMatch(procs, ext) ==>
              |r| == |procs| + 1 && r[..|procs|] == procs && r[|procs|] == Entry(ext, proc)
  {
    if LaterMatch(procs, ext) then procs else procs + [Entry(ext, proc)]
  }

  /** The list after removing `ext`: the first matching entry is unlinked, the others keep their order. */
  function Removed(procs: seq<Entry>, ext: string): (r: seq<Entry>)
    ensures FirstMatch(procs, ext).None? ==> r == procs
    ensures FirstMatch(procs, ext).Some? ==>
              var i := FirstMatch(procs, ext).value;
              |r| == |procs| - 1 &&
              (forall k :: 0 <= k < i ==> r[k] == procs[k]) &&
              (forall k :: i <= k < |r| ==> r[k] == procs[k + 1])
    ensures multiset(r) <= multiset(procs)
  {
    match FirstMatch(procs, ext)
    case None => procs
    case Some(i) =>
      assert procs == procs[..i] + [procs[i]] + procs[i + 1..];
      procs[..i] + procs[i + 1..]
  }

  /** The handler a dispatch invokes, given the extension extracted from the file name.
      The ensures spell out its cases for readers; what "first match" means is
      FirstMatch's contract. */
  function Handler(procs: seq<Entry>, ext: Option<string>): (h: Option<ProcId>)
    ensures ext.None? ==> h.None?
    ensures ext.Some? && FirstMatch(procs, ext.value).None? ==> h.None?
    ensures ext.Some? && FirstMatch(procs, ext.value).Some? ==>
              h == Some(procs[FirstMatch(procs, ext.value).value].proc)
  {
    match ext
    case None => None
    case Some(x) =>
      match FirstMatch(procs, x)
      case None => None
      case Some(i) => Some(procs[i].proc)
  }

  // ---------------------------------------------------------------------------
  // The list scans (TempNode walks)
  // ---------------------------------------------------------------------------

  /** The duplicate check of ilRegisterLoad/ilRegisterSave: walk to the tail,
      comparing each node reached by `TempNode = TempNode->Next`. */
  method ScanAfterHead(procs: seq<Entry>, ext: string) returns (found: bool)
    ensures found <==> exists i :: 1 <= i < |procs| && SameExt(procs[i].ext, ext)
  {
    if |procs| == 0 {
      return false;
    }
    var t := 0;
    while t + 1 < |procs|
      invariant 0 <= t < |procs|
      invariant forall i :: 1 <= i <= t ==> !SameExt(procs[i].ext, ext)
    {
      t := t + 1;
      if SameExt(procs[t].ext, ext) {
        return true;
      }
    }
    return false;
  }

  /** The scan of the removal and dispatch functions: the first node whose
      extension matches, or none. */
  method ScanFirst(procs: seq<Entry>, ext: string) returns (found: bool, i: nat)
    ensures found ==> i < |procs| && SameExt(ext, procs[i].ext)
    ensures found ==> forall j :: 0 <= j < i ==> !SameExt(ext, procs[j].ext)
    ensures !found ==> forall j :: 0 <= j < |procs| ==> !SameExt(ext, procs[j].ext)
  {
    i := 0;
    while i < |procs|
      invariant i <= |procs|
      invariant forall j :: 0 <= j < i ==> !SameExt(ext, procs[j].ext)
    {
      if SameExt(ext, procs[i].ext) {
        return true, i;
      }
      i := i + 1;
    }
    return false, i;
  }

  /** iRegisterLoad / iRegisterSave over one list: extract the extension, find
      the first matching entry and return its handler's result unchanged.
      `invoked` records which handler was called, if any. */
  method Dispatch(procs: seq<Entry>, fileName: string,
                  getExtension: string -> Option<string>,
                  invoke: (ProcId, string) -> bool)
    returns (ok: bool, ghost invoked: Option<ProcId>)
    ensures getExtension(fileName).None? ==> !ok && invoked.None?
    ensures ok <==> Handler(procs, getExtension(fileName)).Some? &&
                    invoke(Handler(procs, getExtension(fileName)).value, fileName)
    ensures invoked == Handler(procs, getExtension(fileName))
  {
    var ext := getExtension(fileName);
    if ext.None? {
      return false, None;
    }
    var found, i := ScanFirst(procs, ext.value);
    if found {
      return invoke(procs[i].proc, fileName), Some(procs[i].proc);
    }
    return false, None;
  }

  // ---------------------------------------------------------------------------
  // The chain builder of ilRegisterMipNum / ilRegisterNumImages
  // ---------------------------------------------------------------------------

  /** Builds a chain of `num` nodes, `num >= 1`, counting `num` down. `alloc(k)`
      says whether the allocation of the node at position k succeeds; the head's
      allocation is never checked by the source, so it is required to succeed.
      Returns the number of nodes linked and whether all `num` were. */
  method BuildChain(num: uint32, alloc: nat -> bool) returns (len: nat, ok: bool)
    requires num >= 1 && alloc(0)
    ensures ok <==> forall k :: 1 <= k < num ==> alloc(k)
    ensures ok ==> len == num
    ensures !ok ==> 1 <= len < num && !alloc(len) && forall k :: 1 <= k < len ==> alloc(k)
  {
    len := 1;
    var remaining: uint32 := num - 1;
    while remaining != 0
      invariant 1 <= len && len + remaining == num
      invariant forall k :: 1 <= k < len ==> alloc(k)
    {
      if !alloc(len) {
        return len, false;
      }
      len := len + 1;
      remaining := remaining - 1;
    }
    return len, true;
  }

  // ---------------------------------------------------------------------------
  // Process-wide state
  // ---------------------------------------------------------------------------

  /** The fields of an ILimage that this file reads or writes. A chain hanging
      off the image is represented by its number of nodes. */
  class Image {
    var origin: uint32
    var format: uint32
    var imageType: uint32
    var duration: uint32
    var mipmaps: nat  // nodes reachable from Mipmaps
    var next: nat     // nodes reachable from Next

    constructor ()
      ensures origin == 0 && format == 0 && imageType == 0 && duration == 0
      ensures mipmaps == 0 && next == 0
    {
      origin, format, imageType, duration := 0, 0, 0, 0;
      mipmaps, next := 0, 0;
    }
  }

  /** The globals il_register.c works on: LoadProcs, SaveProcs, iCurImage and
      the last error recorded by ilSetError. */
  class Library {
    var loadProcs: seq<Entry>
    var saveProcs: seq<Entry>
    var curImage: Image?
    var lastError: uint32

    constructor ()
      ensures loadProcs == [] && saveProcs == [] && curImage == null
      ensures lastError == IL_NO_ERROR
    {
      loadProcs, saveProcs := [], [];
      curImage := null;
      lastError := IL_NO_ERROR;
    }

    /** ilRegisterLoad. `nodeAllocated` is whether ialloc returned a node. */
    method RegisterLoad(ext: string, load: ProcId, nodeAllocated: bool) returns (ok: bool)
      modifies this`loadProcs, this`lastError
      ensures LaterMatch(old(loadProcs), ext) ==>
                ok && loadProcs == old(loadProcs) && lastError == old(lastError)
      ensures !LaterMatch(old(loadProcs), ext) && nodeAllocated ==>
                ok && loadProcs == old(loadProcs) + [Entry(ext, load)] && lastError == old(lastError)
      ensures !LaterMatch(old(loadProcs), ext) && !nodeAllocated ==>
                !ok && loadProcs == old(loadProcs) && lastError == IL_OUT_OF_MEMORY
      ensures ok ==> loadProcs == Registered(old(loadProcs), ext, load)
    {
      var dup := ScanAfterHead(loadProcs, ext);
      if dup {
        return true;
      }
      if !nodeAllocated {
        lastError := IL_OUT_OF_MEMORY;
        return false;
      }
      loadProcs := loadProcs + [Entry(ext, load)];
      return true;
    }

    /** ilRegisterSave. `nodeAllocated` is whether ialloc returned a node. */
    method RegisterSave(ext: string, save: ProcId, nodeAllocated: bool) returns (ok: bool)
      modifies this`saveProcs, this`lastError
      ensures LaterMatch(old(saveProcs), ext) ==>
                ok && saveProcs == old(saveProcs) && lastError == old(lastError)
      ensures !LaterMatch(old(saveProcs), ext) && nodeAllocated ==>
                ok && saveProcs == old(saveProcs) + [Entry(ext, save)] && lastError == old(lastError)
      ensures !LaterMatch(old(saveProcs), ext) && !nodeAllocated ==>
                !ok && saveProcs == old(saveProcs) && lastError == IL_OUT_OF_MEMORY
      ensures ok ==> saveProcs == Registered(old(saveProcs), ext, save)
    {
      var dup := ScanAfterHead(saveProcs, ext);
      if dup {
        return true;
      }
      if !nodeAllocated {
        lastError := IL_OUT_OF_MEMORY;
        return false;
      }
      saveProcs := saveProcs + [Entry(ext, save)];
      return true;
    }

    /** ilRemoveLoad. */
    method RemoveLoad(ext: string) returns (found: bool)
      modifies this`loadProcs
      ensures found <==> FirstMatch(old(loadProcs), ext).Some?
      ensures loadProcs == Removed(old(loadProcs), ext)
    {
      var i;
      found, i := ScanFirst(loadProcs, ext);
      if found {
        loadProcs := loadProcs[..i] + loadProcs[i + 1..];
      }
    }

    /** ilRemoveSave. */
    method RemoveSave(ext: string) returns (found: bool)
      modifies this`saveProcs
      ensures found <==> FirstMatch(old(saveProcs), ext).Some?
      ensures saveProcs == Removed(old(saveProcs), ext)
    {
      var i;
      found, i := ScanFirst(saveProcs, ext);
      if found {
        saveProcs := saveProcs[..i] + saveProcs[i + 1..];
      }
    }

    /** ilRemoveRegistered: frees the head of each list until both are empty. */
    method RemoveRegistered()
      modifies this`loadProcs, this`saveProcs
      ensures loadProcs == [] && saveProcs == []
    {
      while loadProcs != []
        invariant saveProcs == old(saveProcs)
        decreases |loadProcs|
      {
        loadProcs := loadProcs[1..];
      }
      while saveProcs != []
        invariant loadProcs == []
        decreases |saveProcs|
      {
        saveProcs := saveProcs[1..];
      }
    }

    /** iRegisterLoad. */
    method DispatchLoad(fileName: string, getExtension: string -> Option<string>,
                        invoke: (ProcId, string) -> bool)
      returns (ok: bool, ghost invoked: Option<ProcId>)
      ensures getExtension(fileName).None? ==> !ok && invoked.None?
      ensures ok <==> Handler(loadProcs, getExtension(fileName)).Some? &&
                      invoke(Handler(loadProcs, getExtension(fileName)).value, fileName)
      ensures invoked == Handler(loadProcs, getExtension(fileName))
    {
      ok, invoked := Dispatch(loadProcs, fileName, getExtension, invoke);
    }

    /** iRegisterSave. */
    method DispatchSave(fileName: string, getExtension: string -> Option<string>,
                        invoke: (ProcId, string) -> bool)
      returns (ok: bool, ghost invoked: Option<ProcId>)
      ensures getExtension(fileName).None? ==> !ok && invoked.None?
      ensures ok <==> Handler(saveProcs, getExtension(fileName)).Some? &&
                      invoke(Handler(saveProcs, getExtension(fileName)).value, fileName)
      ensures invoked == Handler(saveProcs, getExtension(fileName))
    {
      ok, invoked := Dispatch(saveProcs, fileName, getExtension, invoke);
    }

    /** ilRegisterOrigin. The source dereferences iCurImage unchecked. */
    method RegisterOrigin(origin: uint32)
      requires curImage != null
      modifies curImage`origin, this`lastError
      ensures IsOrigin(origin) ==> curImage.origin == origin && lastError == old(lastError)
      ensures !IsOrigin(origin) ==>
                curImage.origin == old(curImage.origin) && lastError == IL_INVALID_ENUM
    {
      if IsOrigin(origin) {
        curImage.origin := origin;
      } else {
        lastError := IL_INVALID_ENUM;
      }
    }

    /** ilRegisterFormat. The source dereferences iCurImage unchecked. */
    method RegisterFormat(format: uint32)
      requires curImage != null
      modifies curImage`format, this`lastError
      ensures IsFormat(format) ==> curImage.format == format && lastError == old(lastError)
      ensures !IsFormat(format) ==>
                curImage.format == old(curImage.format) && lastError == IL_INVALID_ENUM
    {
      if IsFormat(format) {
        curImage.format := format;
      } else {
        lastError := IL_INVALID_ENUM;
      }
    }

    /** ilRegisterType. The source dereferences iCurImage unchecked. */
    method RegisterType(imageType: uint32)
      requires curImage != null
      modifies curImage`imageType, this`lastError
      ensures IsType(imageType) ==> curImage.imageType == imageType && lastError == old(lastError)
      ensures !IsType(imageType) ==>
                curImage.imageType == old(curImage.imageType) && lastError == IL_INVALID_ENUM
    {
      if IsType(imageType) {
        curImage.imageType := imageType;
      } else {
        lastError := IL_INVALID_ENUM;
      }
    }

    /** ilSetDuration. */
    method SetDuration(duration: uint32) returns (ok: bool)
      modifies curImage, this`lastError
      ensures ok <==> curImage != null
      ensures ok ==> curImage.duration == duration && lastError == old(lastError)
      ensures ok ==> curImage.origin == old(curImage.origin) && curImage.format == old(curImage.format) &&
                     curImage.imageType == old(curImage.imageType) &&
                     curImage.mipmaps == old(curImage.mipmaps) && curImage.next == old(curImage.next)
      ensures !ok ==> lastError == IL_ILLEGAL_OPERATION
    {
      if curImage == null {
        lastError := IL_ILLEGAL_OPERATION;
        return false;
      }
      curImage.duration := duration;
      return true;
    }

    /** ilRegisterMipNum: closes the current mipmap chain, then builds `num`
        fresh nodes; on a failed allocation past the head the partial chain stays. */
    method RegisterMipNum(num: uint32, alloc: nat -> bool) returns (ok: bool)
      requires curImage != null
      requires num >= 1 ==> alloc(0)
      modifies curImage`mipmaps, this`lastError
      ensures ok <==> forall k :: 1 <= k < num ==> alloc(k)
      ensures ok ==> curImage.mipmaps == num && lastError == old(lastError)
      ensures !ok ==> 1 <= curImage.mipmaps < num && !alloc(curImage.mipmaps) &&
                      (forall k :: 1 <= k < curImage.mipmaps ==> alloc(k)) &&
                      lastError == IL_OUT_OF_MEMORY
    {
      curImage.mipmaps := 0;
      if num == 0 {
        return true;
      }
      var len;
      len, ok := BuildChain(num, alloc);
      curImage.mipmaps := len;
      if !ok {
        lastError := IL_OUT_OF_MEMORY;
      }
    }

    /** ilRegisterNumImages: the same rebuild for the "next image" chain. */
    method RegisterNumImages(num: uint32, alloc: nat -> bool) returns (ok: bool)
      requires curImage != null
      requires num >= 1 ==> alloc(0)
      modifies curImage`next, this`lastError
      ensures ok <==> forall k :: 1 <= k < num ==> alloc(k)
      ensures ok ==> curImage.next == num && lastError == old(lastError)
      ensures !ok ==> 1 <= curImage.next < num && !alloc(curImage.next) &&
                      (forall k :: 1 <= k < curImage.next ==> alloc(k)) &&
                      lastError == IL_OUT_OF_MEMORY
    {
      curImage.next := 0;
      if num == 0 {
        return true;
      }
      var len;
      len, ok := BuildChain(num, alloc);
      curImage.next := len;
      if !ok {
        lastError := IL_OUT_OF_MEMORY;
      }
    }
  }
}
