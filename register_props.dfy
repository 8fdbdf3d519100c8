// Properties of the registry and the dispatcher, stated over the specification
// functions that the Library methods are proved against.
module RegisterProps {
  import opened IlTypes
  import opened ExtCompare
  import opened IlRegister

  /** The invariant the `// already registered` check aims at: no two entries of
      one list have extensions that are equal ignoring case. */
  predicate Distinct(procs: seq<Entry>) {
    forall i, j :: 0 <= i < j < |procs| ==> !SameExt(procs[i].ext, procs[j].ext)
  }

  /** If no entry matches `ext` (in the removal scan's sense), the duplicate test does not fire either. */
  lemma NoMatchNoLaterMatch(procs: seq<Entry>, ext: string)
    requires FirstMatch(procs, ext).None?
    ensures !LaterMatch(procs, ext)
  {
    forall i | 1 <= i < |procs|
      ensures !SameExt(procs[i].ext, ext)
    {
      SameExtSymmetric(procs[i].ext, ext);
    }
  }

  /** Appending an entry that matches `ext` to a list with no match makes it the first match. */
  lemma FirstMatchOfAppended(procs: seq<Entry>, e: Entry, ext: string)
    requires FirstMatch(procs, ext).None? && SameExt(ext, e.ext)
    ensures FirstMatch(procs + [e], ext) == Some(|procs|)
  {
    assert (procs + [e])[|procs|] == e;
    assert forall j :: 0 <= j < |procs| ==> (procs + [e])[j] == procs[j];
  }

  // ---------------------------------------------------------------------------
  // Registration
  // ---------------------------------------------------------------------------

  /** Registering case variants of one extension twice in a row adds at most
      one entry, provided the list was not empty before the first call. */
  lemma RegisterTwiceOnNonEmpty(procs: seq<Entry>, ext: string, ext2: string, p: ProcId, p2: ProcId)
    requires |procs| >= 1 && SameExt(ext, ext2)
    ensures Registered(Registered(procs, ext, p), ext2, p2) == Registered(procs, ext, p)
  {
    var r := Registered(procs, ext, p);
    if LaterMatch(procs, ext) {
      var i :| 1 <= i < |procs| && SameExt(procs[i].ext, ext);
      SameExtTransitive(procs[i].ext, ext, ext2);
      assert LaterMatch(procs, ext2);
    } else {
      assert r[|procs|] == Entry(ext, p);
      assert SameExt(r[|procs|].ext, ext2);
      assert LaterMatch(r, ext2);
    }
  }

  /** Registering an extension no entry matches, then removing it, restores the list. */
  lemma RegisterThenRemove(procs: seq<Entry>, ext: string, p: ProcId)
    requires FirstMatch(procs, ext).None?
    ensures Removed(Registered(procs, ext, p), ext) == procs
  {
    NoMatchNoLaterMatch(procs, ext);
    SameExtReflexive(ext);
    FirstMatchOfAppended(procs, Entry(ext, p), ext);
    assert (procs + [Entry(ext, p)])[..|procs|] == procs;
  }

  /** After registering a new extension, dispatching any case variant of it reaches the new handler. */
  lemma RegisterThenDispatch(procs: seq<Entry>, ext: string, p: ProcId, x: string)
    requires FirstMatch(procs, ext).None? && SameExt(x, ext)
    ensures Handler(Registered(procs, ext, p), Some(x)) == Some(p)
  {
    NoMatchNoLaterMatch(procs, ext);
    forall j | 0 <= j < |procs|
      ensures !SameExt(x, procs[j].ext)
    {
      if SameExt(x, procs[j].ext) {
        SameExtSymmetric(x, ext);
        SameExtTransitive(ext, x, procs[j].ext);
        assert false;
      }
    }
    FirstMatchOfAppended(procs, Entry(ext, p), x);
  }

  /** Two handlers registered for "foo" and "bar": a file whose extension is "FOO" goes to the first. */
  lemma DispatchRoutesByExtension()
    ensures Handler(Registered(Registered([], "foo", 1), "bar", 2), Some("FOO")) == Some(1)
    ensures Handler(Registered(Registered([], "foo", 1), "bar", 2), Some("Bar")) == Some(2)
    ensures Handler(Registered(Registered([], "foo", 1), "bar", 2), Some("png")) == None
  {
    var procs := Registered(Registered([], "foo", 1), "bar", 2);
    assert !LaterMatch([Entry("foo", 1)], "bar");
    assert procs == [Entry("foo", 1), Entry("bar", 2)];
    assert Lower('F') == 'f' && Lower('O') == 'o' && Lower('B') == 'b';
    assert SameExt("FOO", "foo");
    assert SameExt("Bar", "bar");
    assert !SameExt("Bar", "foo") by { assert Lower("Bar"[0]) != Lower("foo"[0]); }
    assert !SameExt("png", "foo") by { assert Lower("png"[0]) != Lower("foo"[0]); }
    assert !SameExt("png", "bar") by { assert Lower("png"[0]) != Lower("bar"[0]); }
  }

  // ---------------------------------------------------------------------------
  // The head-skip defect and its correction
  // ---------------------------------------------------------------------------

  /** As written, the duplicate test never looks at the head: registering "png"
      on an empty list and then "PNG" leaves two entries for one extension. */
  lemma HeadExtensionRegisteredTwice()
    ensures Registered(Registered([], "png", 1), "PNG", 2) == [Entry("png", 1), Entry("PNG", 2)]
    ensures !Distinct(Registered(Registered([], "png", 1), "PNG", 2))
  {
    assert Registered([], "png", 1) == [Entry("png", 1)];
    assert !LaterMatch([Entry("png", 1)], "PNG");
    CaseVariantsMatch();
  }

  /** Registration as evidently intended by the `// already registered` check:
      every entry, the head included, is compared. The ensures spell out the two
      outcomes for readers; the proved content is in the lemmas below. */
  function RegisterUnique(procs: seq<Entry>, ext: string, proc: ProcId): (r: seq<Entry>)
    ensures FirstMatch(procs, ext).Some? ==> r == procs
    ensures FirstMatch(procs, ext).None? ==>
              |r| == |procs| + 1 && r[..|procs|] == procs && r[|procs|] == Entry(ext, proc)
  {
    if FirstMatch(procs, ext).Some? then procs else procs + [Entry(ext, proc)]
  }

  /** The corrected registration keeps extensions pairwise distinct. */
  lemma RegisterUniqueKeepsDistinct(procs: seq<Entry>, ext: string, p: ProcId)
    requires Distinct(procs)
    ensures Distinct(RegisterUnique(procs, ext, p))
  {
    var r := RegisterUnique(procs, ext, p);
    if FirstMatch(procs, ext).None? {
      forall i, j | 0 <= i < j < |r|
        ensures !SameExt(r[i].ext, r[j].ext)
      {
        if j == |procs| {
          SameExtSymmetric(r[i].ext, ext);
        } else {
          assert r[i] == procs[i] && r[j] == procs[j];
        }
      }
    }
  }

  /** With the correction, registering case variants of one extension twice leaves
      the list as after the first call, on every list including the empty one. */
  lemma RegisterUniqueTwice(procs: seq<Entry>, ext: string, ext2: string, p: ProcId, p2: ProcId)
    requires SameExt(ext, ext2)
    ensures RegisterUnique(RegisterUnique(procs, ext, p), ext2, p2) == RegisterUnique(procs, ext, p)
  {
    var r := RegisterUnique(procs, ext, p);
    SameExtSymmetric(ext, ext2);
    match FirstMatch(procs, ext)
    case Some(i) =>
      SameExtTransitive(ext2, ext, procs[i].ext);
    case None =>
      assert r[|procs|].ext == ext;
  }

  /** The as-written registration differs from the corrected one only when the
      extension matches the head. */
  lemma RegisteredAgreesOffHead(procs: seq<Entry>, ext: string, p: ProcId)
    requires |procs| == 0 || !SameExt(procs[0].ext, ext)
    ensures Registered(procs, ext, p) == RegisterUnique(procs, ext, p)
  {
    if FirstMatch(procs, ext).Some? {
      var i := FirstMatch(procs, ext).value;
      SameExtSymmetric(ext, procs[i].ext);
      assert i != 0;
      assert LaterMatch(procs, ext);
    } else {
      NoMatchNoLaterMatch(procs, ext);
    }
  }

  // ---------------------------------------------------------------------------
  // Removal, clearing and dispatch
  // ---------------------------------------------------------------------------

  /** On a distinct list, removal leaves no entry matching the removed extension. */
  lemma RemoveLeavesNoMatch(procs: seq<Entry>, ext: string)
    requires Distinct(procs)
    ensures FirstMatch(Removed(procs, ext), ext).None?
  {
    var r := Removed(procs, ext);
    if FirstMatch(procs, ext).Some? {
      var i := FirstMatch(procs, ext).value;
      forall k | 0 <= k < |r|
        ensures !SameExt(ext, r[k].ext)
      {
        if k >= i && SameExt(ext, r[k].ext) {
          assert r[k] == procs[k + 1];
          SameExtSymmetric(ext, procs[i].ext);
          SameExtTransitive(procs[i].ext, ext, procs[k + 1].ext);
          assert false;
        }
      }
    }
  }

  /** Removal keeps a distinct list distinct. */
  lemma RemoveKeepsDistinct(procs: seq<Entry>, ext: string)
    requires Distinct(procs)
    ensures Distinct(Removed(procs, ext))
  {
    var r := Removed(procs, ext);
    if FirstMatch(procs, ext).Some? {
      var n := FirstMatch(procs, ext).value;
      forall i, j | 0 <= i < j < |r|
        ensures !SameExt(r[i].ext, r[j].ext)
      {
        var i' := if i < n then i else i + 1;
        var j' := if j < n then j else j + 1;
        assert r[i] == procs[i'] && r[j] == procs[j'];
      }
    }
  }

  /** Removing an extension nobody registered reports not-found and changes nothing,
      and a successful removal shortens the list by exactly one entry. */
  lemma RemoveCounts(procs: seq<Entry>, ext: string)
    ensures FirstMatch(procs, ext).None? ==> Removed(procs, ext) == procs
    ensures FirstMatch(procs, ext).Some? ==>
              multiset(Removed(procs, ext)) + multiset{procs[FirstMatch(procs, ext).value]} == multiset(procs)
  {
    if FirstMatch(procs, ext).Some? {
      var i := FirstMatch(procs, ext).value;
      assert procs == procs[..i] + [procs[i]] + procs[i + 1..];
      assert Removed(procs, ext) == procs[..i] + procs[i + 1..];
    }
  }

  /** No dispatch finds a handler in an empty list. Combined with the ensures of
      Library.RemoveRegistered (both lists empty) and Library.DispatchLoad/DispatchSave
      (the result is tied to Handler), every dispatch after a clear returns false. */
  lemma ClearedListDispatchesNothing(ext: Option<string>)
    ensures Handler([], ext).None?
  {
  }
}
