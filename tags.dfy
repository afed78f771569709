/**
 * The tag-table resolver of `build_snapshot`: it walks `tag_count` tag
 * descriptors of 32 bytes and fills two maps keyed by `tag_index`, one to the
 * tag's path string and one to the descriptor. A descriptor is skipped when
 * its index already has a PATH; a path that fails to decode is left out of the
 * path map while the descriptor is still recorded. So a duplicate index is
 * ignored once some descriptor with that index has resolved, but until then a
 * later duplicate replaces the recorded descriptor.
 */
module Tags {
  import opened Wrappers
  import opened Words
  import opened Memory
  import opened Entity
  import opened Layouts

  datatype TagTables = TagTables(paths: map<u32, seq<u8>>, entries: map<u32, TagEntry>)

  /** `tag_array_base_ptr + size_of::<TagEntry>() * index`, in wrapping `u32` arithmetic. */
  function DescriptorAddress(base: u32, index: nat): u32
  {
    (base + TAG_ENTRY_SIZE * index) % 0x1_0000_0000
  }

  /**
   * Consecutive descriptors lie `size_of::<TagEntry>()` bytes apart in the
   * fixed-up address space `read` uses, even when the `u32` sum wraps.
   */
  lemma {:induction false} DescriptorStride(base: u32, index: nat)
    ensures FixPointer(DescriptorAddress(base, index + 1)) ==
            (FixPointer(DescriptorAddress(base, index)) + TAG_ENTRY_SIZE) % ADDRESS_LIMIT
  {
    var x := base + TAG_ENTRY_SIZE * index;
    assert DescriptorAddress(base, index) == x % 0x1_0000_0000;
    assert DescriptorAddress(base, index + 1) == (x + TAG_ENTRY_SIZE) % 0x1_0000_0000;
    WrapThenFix(x);
    WrapThenFix(x + TAG_ENTRY_SIZE);
    ModAddSmall(x, TAG_ENTRY_SIZE);
  }

  predicate DescriptorsReadable(img: Image, base: u32, count: nat)
  {
    forall index :: 0 <= index < count ==> InRange(img, DescriptorAddress(base, index), TAG_ENTRY_SIZE)
  }

  /** Descriptor number `index` of the tag array at `base`. */
  function Descriptor(img: Image, base: u32, index: nat): TagEntry
    requires InRange(img, DescriptorAddress(base, index), TAG_ENTRY_SIZE)
  {
    DecodeTagEntry(Read(img, DescriptorAddress(base, index), TAG_ENTRY_SIZE))
  }

  /** The descriptor's path pointer, fixed up, leads to a readable string. */
  predicate PathResolves(img: Image, e: TagEntry)
  {
    ReadStr(img, FixPointer(e.tagPathPtr)).Ok?
  }

  /** One iteration of the `0..tag_count` loop. */
  function ResolveStep(img: Image, t: TagTables, e: TagEntry): TagTables
  {
    if e.tagIndex in t.paths then t
    else
      var paths := match ReadStr(img, FixPointer(e.tagPathPtr))
        case Ok(s) => t.paths[e.tagIndex := s]
        case Err(_) => t.paths;
      TagTables(paths, t.entries[e.tagIndex := e])
  }

  /** The two maps after walking `descs` in order. */
  function Walk(img: Image, descs: seq<TagEntry>): TagTables
    decreases |descs|
  {
    if descs == [] then TagTables(map[], map[])
    else ResolveStep(img, Walk(img, descs[..|descs| - 1]), descs[|descs| - 1])
  }

  /** A step leaves every other index alone in both maps. */
  lemma {:induction false} StepKeepsOtherIndices(img: Image, t: TagTables, e: TagEntry, k: u32)
    requires e.tagIndex != k
    ensures k in ResolveStep(img, t, e).paths <==> k in t.paths
    ensures k in ResolveStep(img, t, e).entries <==> k in t.entries
    ensures k in t.paths ==> ResolveStep(img, t, e).paths[k] == t.paths[k]
    ensures k in t.entries ==> ResolveStep(img, t, e).entries[k] == t.entries[k]
  {
  }

  /** The first `count` descriptors of the tag array at `base`. */
  function Descriptors(img: Image, base: u32, count: nat): (r: seq<TagEntry>)
    requires DescriptorsReadable(img, base, count)
    ensures |r| == count
    ensures forall index :: 0 <= index < count ==> r[index] == Descriptor(img, base, index)
  {
    seq(count, index requires 0 <= index < count => Descriptor(img, base, index))
  }

  /** The two maps after the first `count` descriptors of the tag array at `base`. */
  function ResolveTags(img: Image, base: u32, count: nat): TagTables
    requires DescriptorsReadable(img, base, count)
  {
    Walk(img, Descriptors(img, base, count))
  }

  /** `descs[j]` is the first descriptor with index `k` whose path resolves. */
  predicate FirstResolvableAt(img: Image, descs: seq<TagEntry>, j: nat, k: u32)
    requires j < |descs|
  {
    && descs[j].tagIndex == k
    && PathResolves(img, descs[j])
    && forall i :: 0 <= i < j ==> descs[i].tagIndex == k ==> !PathResolves(img, descs[i])
  }

  /** `descs[j]` is the last descriptor with index `k`. */
  predicate LastWithIndexAt(descs: seq<TagEntry>, j: nat, k: u32)
    requires j < |descs|
  {
    descs[j].tagIndex == k && forall i :: j < i < |descs| ==> descs[i].tagIndex != k
  }

  /** Every index with a path also has a descriptor. */
  lemma {:induction false} PathKeysWithinEntryKeys(img: Image, descs: seq<TagEntry>)
    ensures Walk(img, descs).paths.Keys <= Walk(img, descs).entries.Keys
    decreases |descs|
  {
    if descs != [] {
      PathKeysWithinEntryKeys(img, descs[..|descs| - 1]);
    }
  }

  /** The descriptor map's keys are exactly the indices of the descriptors walked. */
  lemma {:induction false} EntryKeysAreDescriptorIndices(img: Image, descs: seq<TagEntry>, k: u32)
    ensures k in Walk(img, descs).entries <==> exists j :: 0 <= j < |descs| && descs[j].tagIndex == k
    decreases |descs|
  {
    if descs != [] {
      var prefix := descs[..|descs| - 1];
      EntryKeysAreDescriptorIndices(img, prefix, k);
      PathKeysWithinEntryKeys(img, prefix);
      assert Walk(img, descs) == ResolveStep(img, Walk(img, prefix), descs[|descs| - 1]);
      StepEntryKeys(img, Walk(img, prefix), descs[|descs| - 1], k);
      if (exists j :: 0 <= j < |prefix| && prefix[j].tagIndex == k) {
        var j :| 0 <= j < |prefix| && prefix[j].tagIndex == k;
        assert descs[j] == prefix[j];
      }
      if (exists j :: 0 <= j < |descs| && descs[j].tagIndex == k) {
        var j :| 0 <= j < |descs| && descs[j].tagIndex == k;
        if j < |prefix| {
          assert prefix[j] == descs[j];
        }
      }
    }
  }

  /** After a step, an index has a descriptor iff it had one or the step's descriptor carries it. */
  lemma {:induction false} StepEntryKeys(img: Image, t: TagTables, e: TagEntry, k: u32)
    requires t.paths.Keys <= t.entries.Keys
    ensures k in ResolveStep(img, t, e).entries <==> k in t.entries || e.tagIndex == k
  {
  }

  /** An index has a path only if some descriptor with that index has a readable path. */
  lemma {:induction false} ResolvableDescriptorOfPathKey(img: Image, descs: seq<TagEntry>, k: u32) returns (j: nat)
    requires k in Walk(img, descs).paths
    ensures j < |descs| && descs[j].tagIndex == k && PathResolves(img, descs[j])
    decreases |descs|
  {
    var prefix := descs[..|descs| - 1];
    if k in Walk(img, prefix).paths {
      j := ResolvableDescriptorOfPathKey(img, prefix, k);
      assert descs[j] == prefix[j];
    } else {
      j := |descs| - 1;
    }
  }

  /** A descriptor whose path is readable leaves its index with a path. */
  lemma {:induction false} PathKeyOfResolvableDescriptor(img: Image, descs: seq<TagEntry>, j: nat)
    requires j < |descs| && PathResolves(img, descs[j])
    ensures descs[j].tagIndex in Walk(img, descs).paths
    decreases |descs|
  {
    var prefix := descs[..|descs| - 1];
    if j < |prefix| {
      assert descs[j] == prefix[j];
      PathKeyOfResolvableDescriptor(img, prefix, j);
    }
  }

  /** An index has a path exactly when some descriptor with that index has a readable path. */
  lemma {:induction false} PathKeysAreResolvableIndices(img: Image, descs: seq<TagEntry>, k: u32)
    ensures k in Walk(img, descs).paths <==>
              exists j :: 0 <= j < |descs| && descs[j].tagIndex == k && PathResolves(img, descs[j])
  {
    if k in Walk(img, descs).paths {
      var j := ResolvableDescriptorOfPathKey(img, descs, k);
    }
    if exists j :: 0 <= j < |descs| && descs[j].tagIndex == k && PathResolves(img, descs[j]) {
      var j :| 0 <= j < |descs| && descs[j].tagIndex == k && PathResolves(img, descs[j]);
      PathKeyOfResolvableDescriptor(img, descs, j);
    }
  }

  /** A resolved index keeps its path and its descriptor whatever descriptors follow. */
  lemma {:induction false} ResolvedIndexIsStable(img: Image, descs: seq<TagEntry>, count: nat, k: u32)
    requires count <= |descs|
    requires k in Walk(img, descs[..count]).paths
    ensures k in Walk(img, descs).paths
    ensures Walk(img, descs).paths[k] == Walk(img, descs[..count]).paths[k]
    ensures k in Walk(img, descs).entries && k in Walk(img, descs[..count]).entries
    ensures Walk(img, descs).entries[k] == Walk(img, descs[..count]).entries[k]
    decreases |descs|
  {
    PathKeysWithinEntryKeys(img, descs[..count]);
    PathKeysWithinEntryKeys(img, descs);
    if count < |descs| {
      var prefix := descs[..|descs| - 1];
      assert prefix[..count] == descs[..count];
      ResolvedIndexIsStable(img, prefix, count, k);
    } else {
      assert descs[..count] == descs;
    }
  }

  /**
   * For a resolved index, both maps hold the first descriptor with that index
   * whose path resolves, and the path is that descriptor's string.
   */
  lemma {:induction false} FirstResolvableWins(img: Image, descs: seq<TagEntry>, k: u32) returns (j: nat)
    requires k in Walk(img, descs).paths
    ensures j < |descs| && FirstResolvableAt(img, descs, j, k)
    ensures k in Walk(img, descs).entries && Walk(img, descs).entries[k] == descs[j]
    ensures Ok(Walk(img, descs).paths[k]) == ReadStr(img, FixPointer(descs[j].tagPathPtr))
    decreases |descs|
  {
    var prefix := descs[..|descs| - 1];
    PathKeysWithinEntryKeys(img, prefix);
    assert forall i :: 0 <= i < |prefix| ==> descs[i] == prefix[i];
    if k in Walk(img, prefix).paths {
      j := FirstResolvableWins(img, prefix, k);
      assert FirstResolvableAt(img, descs, j, k);
    } else {
      j := |descs| - 1;
      forall i | 0 <= i < j && descs[i].tagIndex == k
        ensures !PathResolves(img, descs[i])
      {
        if PathResolves(img, descs[i]) {
          PathKeyOfResolvableDescriptor(img, prefix, i);
        }
      }
    }
  }

  /** An index without a path has no descriptor whose path resolves. */
  lemma {:induction false} UnresolvedIndexNeverResolves(img: Image, descs: seq<TagEntry>, k: u32)
    requires k !in Walk(img, descs).paths
    ensures forall i :: 0 <= i < |descs| && descs[i].tagIndex == k ==> !PathResolves(img, descs[i])
  {
    forall i | 0 <= i < |descs| && descs[i].tagIndex == k
      ensures !PathResolves(img, descs[i])
    {
      if PathResolves(img, descs[i]) {
        PathKeyOfResolvableDescriptor(img, descs, i);
      }
    }
  }

  /**
   * For an index with a descriptor but no path, the descriptor map holds the
   * LAST descriptor with that index (none of them resolved, as
   * `UnresolvedIndexNeverResolves` says).
   */
  lemma {:induction false} UnresolvedKeepsLastDescriptor(img: Image, descs: seq<TagEntry>, k: u32) returns (j: nat)
    requires k in Walk(img, descs).entries
    requires k !in Walk(img, descs).paths
    ensures j < |descs| && LastWithIndexAt(descs, j, k) && Walk(img, descs).entries[k] == descs[j]
    decreases |descs|
  {
    var prefix := descs[..|descs| - 1];
    var t := Walk(img, prefix);
    var e := descs[|descs| - 1];
    assert Walk(img, descs) == ResolveStep(img, t, e);
    if e.tagIndex == k {
      StepKeepsPath(img, t, e, k);
      StepRecordsUnresolved(img, t, e);
      j := |descs| - 1;
    } else {
      StepKeepsOtherIndices(img, t, e, k);
      j := UnresolvedKeepsLastDescriptor(img, prefix, k);
      assert forall i :: 0 <= i < |prefix| ==> descs[i] == prefix[i];
    }
  }

  /** A path, once recorded, stays. */
  lemma {:induction false} StepKeepsPath(img: Image, t: TagTables, e: TagEntry, k: u32)
    ensures k in t.paths ==> k in ResolveStep(img, t, e).paths && ResolveStep(img, t, e).paths[k] == t.paths[k]
  {
  }

  /** A descriptor whose index has no path yet is recorded, replacing any earlier one. */
  lemma {:induction false} StepRecordsUnresolved(img: Image, t: TagTables, e: TagEntry)
    requires e.tagIndex !in t.paths
    ensures ResolveStep(img, t, e).entries == t.entries[e.tagIndex := e]
  {
  }

  /** A descriptor whose index already has a path changes neither map. */
  lemma {:induction false} StepIgnoresResolvedIndex(img: Image, t: TagTables, e: TagEntry)
    requires e.tagIndex in t.paths
    ensures ResolveStep(img, t, e) == t
  {
  }

  /**
   * A descriptor whose index has a descriptor but no path yet replaces the
   * recorded descriptor: the descriptor map is not first-occurrence-wins.
   */
  lemma {:induction false} StepReplacesUnresolvedDescriptor(img: Image, t: TagTables, e: TagEntry)
    requires e.tagIndex in t.entries && e.tagIndex !in t.paths
    ensures ResolveStep(img, t, e).entries[e.tagIndex] == e
    ensures e.tagIndex in ResolveStep(img, t, e).paths <==> PathResolves(img, e)
  {
  }

  lemma {:induction false} DescriptorsExtend(img: Image, base: u32, count: nat)
    requires DescriptorsReadable(img, base, count + 1)
    ensures Descriptors(img, base, count + 1)[..count] == Descriptors(img, base, count)
    ensures Descriptors(img, base, count + 1)[count] == Descriptor(img, base, count)
  {
  }

  /**
   * The tag loop of `build_snapshot`: reads each descriptor in turn and,
   * unless its index already has a path, records the path when it decodes
   * and the descriptor in any case.
   */
  method ReadTagTables(img: Image, base: u32, count: nat) returns (paths: map<u32, seq<u8>>, entries: map<u32, TagEntry>)
    requires DescriptorsReadable(img, base, count)
    ensures TagTables(paths, entries) == ResolveTags(img, base, count)
  {
    paths, entries := map[], map[];
    for index := 0 to count
      invariant TagTables(paths, entries) == Walk(img, Descriptors(img, base, index))
    {
      var tagEntryPtr := DescriptorAddress(base, index);
      var tagEntry := DecodeTagEntry(Read(img, tagEntryPtr, TAG_ENTRY_SIZE));
      DescriptorsExtend(img, base, index);
      if tagEntry.tagIndex !in paths {
        var tagPathPtr := FixPointer(tagEntry.tagPathPtr);
        var value := ReadStr(img, tagPathPtr);
        if value.Ok? {
          paths := paths[tagEntry.tagIndex := value.value];
        }
        entries := entries[tagEntry.tagIndex := tagEntry];
      }
    }
  }
}
