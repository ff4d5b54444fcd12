/**
 * The virtual disk and its file allocation table (FAT): a byte buffer, a map
 * from bare file name to the byte range `(start, end)` that holds the file,
 * and the `next_free_space` cursor.
 */
module Allocation {
  import opened PySlices
  import opened OrderedMaps

  /** The length of `bytearray(1024 * 1024)`. */
  const DiskSize: nat := 1024 * 1024

  /** A FAT entry `(start, end)`. */
  datatype Extent = Extent(start: nat, end: nat)

  /** The FAT, in insertion order (the order `show_fat_table` lists it in). */
  type Fat = OrderedMap<string, Extent>

  /** `len(disk_space[start:end])`: the bytes of the range that lie on the disk. */
  function ExtentLen(disk: seq<Byte>, e: Extent): nat {
    SliceLen(disk, e.start, e.end)
  }

  /** `min(file_end + len(content), len(disk_space))`: where a write moves the end of a file. */
  function NewEnd(e: Extent, count: nat, diskLen: nat): (r: nat)
    ensures r <= diskLen
    ensures e.end <= diskLen ==> e.end <= r
    ensures e.end + count <= diskLen ==> r == e.end + count
  {
    Min(e.end + count, diskLen)
  }

  /**
   * The disk after `disk_space[start:new_end] = content[:new_end - start].encode()`.
   * The range is given only the new text, not the old content followed by it.
   */
  function Spliced(disk: seq<Byte>, start: nat, newEnd: nat, content: string): seq<Byte> {
    SliceAssign(disk, start, newEnd, Encode(StrPrefix(content, newEnd - start)))
  }

  /** The disk after `disk_space[start:end] = bytearray(end - start)`. */
  function Cleared(disk: seq<Byte>, e: Extent): seq<Byte>
    requires e.start <= e.end
  {
    SliceAssign(disk, e.start, e.end, Zeros(e.end - e.start))
  }

  /** `sum(len(disk_space[start:end]) for start, end in fat_table.values())`. */
  function UsedSpace(fat: Fat, disk: seq<Byte>): nat
    requires fat.Valid()
  {
    UsedOver(fat.keys, fat.entries, disk)
  }

  function UsedOver(keys: seq<string>, entries: map<string, Extent>, disk: seq<Byte>): nat
    requires forall k <- keys :: k in entries
  {
    if keys == [] then 0
    else ExtentLen(disk, entries[keys[0]]) + UsedOver(keys[1..], entries, disk)
  }

  /** The plain sum of `end - start` over the entries `keys`. */
  function RangeSum(keys: seq<string>, entries: map<string, Extent>): int
    requires forall k <- keys :: k in entries
  {
    if keys == [] then 0
    else entries[keys[0]].end - entries[keys[0]].start + RangeSum(keys[1..], entries)
  }

  /** Every FAT range lies on a disk of length `diskLen`, start before end. */
  ghost predicate InBounds(fat: Fat, diskLen: nat) {
    forall k :: k in fat.entries ==> fat.entries[k].start <= fat.entries[k].end <= diskLen
  }

  /** While every range lies on the disk, the reported used space is the sum of the range lengths. */
  lemma UsedIsRangeSum(fat: Fat, disk: seq<Byte>)
    requires fat.Valid()
    ensures InBounds(fat, |disk|) ==> UsedSpace(fat, disk) == RangeSum(fat.keys, fat.entries)
  {
    if InBounds(fat, |disk|) {
      UsedOverIsRangeSum(fat.keys, fat.entries, disk);
    }
  }

  lemma {:induction false} UsedOverIsRangeSum(keys: seq<string>, entries: map<string, Extent>, disk: seq<Byte>)
    requires forall k <- keys :: k in entries && entries[k].start <= entries[k].end <= |disk|
    ensures UsedOver(keys, entries, disk) == RangeSum(keys, entries)
  {
    if keys != [] {
      UsedOverIsRangeSum(keys[1..], entries, disk);
    }
  }

  /** The used space depends only on the ranges of the listed keys and on the disk length. */
  lemma {:induction false} UsedOverAgree(keys: seq<string>, entries: map<string, Extent>, entries': map<string, Extent>,
                                         disk: seq<Byte>, disk': seq<Byte>)
    requires forall k <- keys :: k in entries && k in entries' && entries[k] == entries'[k]
    requires |disk| == |disk'|
    ensures UsedOver(keys, entries, disk) == UsedOver(keys, entries', disk')
  {
    if keys != [] {
      UsedOverAgree(keys[1..], entries, entries', disk, disk');
    }
  }

  lemma {:induction false} UsedOverUpdate(keys: seq<string>, entries: map<string, Extent>, disk: seq<Byte>,
                                          disk': seq<Byte>, k: string, e: Extent)
    requires Distinct(keys) && k in keys && (forall x <- keys :: x in entries)
    requires |disk'| == |disk|
    ensures UsedOver(keys, entries[k := e], disk') == UsedOver(keys, entries, disk) - ExtentLen(disk, entries[k]) + ExtentLen(disk, e)
  {
    assert Distinct(keys[1..]) by {
      forall i, j | 0 <= i < j < |keys[1..]| ensures keys[1..][i] != keys[1..][j] {
        assert keys[1..][i] == keys[i + 1] && keys[1..][j] == keys[j + 1];
      }
    }
    if keys[0] == k {
      assert k !in keys[1..] by {
        forall j | 0 <= j < |keys[1..]| ensures keys[1..][j] != k {
          assert keys[1..][j] == keys[j + 1];
        }
      }
      UsedOverAgree(keys[1..], entries[k := e], entries, disk', disk);
    } else {
      UsedOverUpdate(keys[1..], entries, disk, disk', k, e);
    }
  }

  lemma {:induction false} UsedOverAppend(keys: seq<string>, entries: map<string, Extent>, disk: seq<Byte>,
                                          k: string, e: Extent)
    requires k !in keys && (forall x <- keys :: x in entries)
    ensures UsedOver(keys + [k], entries[k := e], disk) == UsedOver(keys, entries, disk) + ExtentLen(disk, e)
  {
    if keys == [] {
      assert [k][1..] == [];
    } else {
      assert (keys + [k])[1..] == keys[1..] + [k];
      UsedOverAppend(keys[1..], entries, disk, k, e);
    }
  }

  lemma {:induction false} UsedOverWithout(keys: seq<string>, entries: map<string, Extent>, disk: seq<Byte>,
                                           disk': seq<Byte>, k: string)
    requires Distinct(keys) && k in keys && (forall x <- keys :: x in entries)
    requires |disk'| == |disk|
    ensures UsedOver(Without(keys, k), entries - {k}, disk') == UsedOver(keys, entries, disk) - ExtentLen(disk, entries[k])
  {
    assert Distinct(keys[1..]) by {
      forall i, j | 0 <= i < j < |keys[1..]| ensures keys[1..][i] != keys[1..][j] {
        assert keys[1..][i] == keys[i + 1] && keys[1..][j] == keys[j + 1];
      }
    }
    if keys[0] == k {
      assert k !in keys[1..] by {
        forall j | 0 <= j < |keys[1..]| ensures keys[1..][j] != k {
          assert keys[1..][j] == keys[j + 1];
        }
      }
      UsedOverAgree(keys[1..], entries - {k}, entries, disk', disk);
    } else {
      UsedOverWithout(keys[1..], entries, disk, disk', k);
    }
  }

  /**
   * `create` puts a zero-length entry at the cursor. An entry of the same
   * name, made for a file in another directory, is overwritten and its bytes
   * stop counting as used.
   */
  lemma AllocateAccounting(fat: Fat, disk: seq<Byte>, name: string, at: nat)
    requires fat.Valid()
    ensures fat.Put(name, Extent(at, at)).Valid()
    ensures UsedSpace(fat.Put(name, Extent(at, at)), disk) ==
            UsedSpace(fat, disk) - (if name in fat.entries then ExtentLen(disk, fat.entries[name]) else 0)
  {
    if name in fat.entries {
      UsedOverUpdate(fat.keys, fat.entries, disk, disk, name, Extent(at, at));
    } else {
      UsedOverAppend(fat.keys, fat.entries, disk, name, Extent(at, at));
    }
  }

  /**
   * A write of one-byte characters that fits, to a file with no bytes yet:
   * the range grows by the length of the text, and so does the used space.
   */
  lemma AppendToEmpty(fat: Fat, disk: seq<Byte>, name: string, content: string)
    requires fat.Valid() && name in fat.entries
    requires fat.entries[name].start == fat.entries[name].end
    requires fat.entries[name].end + |content| <= |disk| && IsAscii(content)
    ensures var e := fat.entries[name];
            var newEnd := NewEnd(e, |content|, |disk|);
            && newEnd == e.start + |content|
            && UsedSpace(fat.Put(name, Extent(e.start, newEnd)), Spliced(disk, e.start, newEnd, content))
               == UsedSpace(fat, disk) + |content|
  {
    var e := fat.entries[name];
    var newEnd := NewEnd(e, |content|, |disk|);
    assert newEnd == e.start + |content|;
    var disk' := Spliced(disk, e.start, newEnd, content);
    AsciiSpliced(disk, e.start, content);
    assert ExtentLen(disk, e) == 0 && ExtentLen(disk', Extent(e.start, newEnd)) == |content|;
    UsedOverUpdate(fat.keys, fat.entries, disk, disk', name, Extent(e.start, newEnd));
  }

  /** ASCII text written over a range of exactly its length lands there byte for byte, and the disk keeps its length. */
  lemma AsciiSpliced(disk: seq<Byte>, start: nat, content: string)
    requires start + |content| <= |disk| && IsAscii(content)
    ensures var disk' := Spliced(disk, start, start + |content|, content);
            && disk' == disk[..start] + Encode(content) + disk[start + |content|..]
            && |disk'| == |disk|
            && (forall i :: 0 <= i < |content| ==> disk'[start + i] == content[i] as int)
  {
    var disk' := Spliced(disk, start, start + |content|, content);
    assert StrPrefix(content, |content|) == content;
    EncodeAscii(content);
    forall i | 0 <= i < |content| ensures disk'[start + i] == content[i] as int {
      assert disk'[start + i] == Encode(content)[i];
    }
  }

  /**
   * A write of ASCII text that fits on the disk, to a file that already
   * holds bytes, gives its range only the new text: the old bytes are
   * dropped and the disk shrinks by their number, although the FAT range
   * grows to cover old and new.
   */
  lemma RewriteDropsOldBytes(disk: seq<Byte>, e: Extent, content: string)
    requires e.start < e.end && e.end + |content| <= |disk| && IsAscii(content)
    ensures var newEnd := NewEnd(e, |content|, |disk|);
            var disk' := Spliced(disk, e.start, newEnd, content);
            && newEnd - e.start == (e.end - e.start) + |content|
            && |disk'| == |disk| - (e.end - e.start)
            && disk' == disk[..e.start] + Encode(content) + disk[newEnd..]
  {
    var newEnd := NewEnd(e, |content|, |disk|);
    assert StrPrefix(content, newEnd - e.start) == content;
    EncodeAscii(content);
  }

  /** Clearing an empty range, on the disk or past its end, leaves the disk as it was. */
  lemma ClearEmpty(disk: seq<Byte>, at: nat)
    ensures Cleared(disk, Extent(at, at)) == disk
  {
    var l := Min(at, |disk|);
    assert Clip(|disk|, at, at) == (l, l);
    assert disk[..l] + Zeros(0) + disk[l..] == disk;
  }

  /** Zero-filling a range that lies on the disk clears exactly that range and keeps the length. */
  lemma ClearedBytes(disk: seq<Byte>, e: Extent)
    requires e.start <= e.end <= |disk|
    ensures |Cleared(disk, e)| == |disk|
    ensures forall i :: e.start <= i < e.end ==> Cleared(disk, e)[i] == 0
    ensures forall i :: 0 <= i < |disk| && !(e.start <= i < e.end) ==> Cleared(disk, e)[i] == disk[i]
  {
    var z := Zeros(e.end - e.start);
    var disk' := Cleared(disk, e);
    assert disk' == disk[..e.start] + z + disk[e.end..];
    forall i | 0 <= i < |disk|
      ensures disk'[i] == if e.start <= i < e.end then 0 else disk[i]
    {
      if i < e.start {
        assert disk'[i] == disk[..e.start][i];
      } else if i < e.end {
        assert disk'[i] == z[i - e.start];
      } else {
        assert disk'[i] == disk[e.end..][i - e.end];
      }
    }
  }

  /**
   * `delete` of a file whose range lies on the disk: the range reads back as
   * zeros, every other byte and the disk length are kept, and the used space
   * shrinks by the length of the range.
   */
  lemma ReleaseAccounting(fat: Fat, disk: seq<Byte>, name: string)
    requires fat.Valid() && name in fat.entries
    requires fat.entries[name].start <= fat.entries[name].end <= |disk|
    ensures var e := fat.entries[name];
            var disk' := Cleared(disk, e);
            && |disk'| == |disk|
            && (forall i :: e.start <= i < e.end ==> disk'[i] == 0)
            && (forall i :: 0 <= i < |disk| && !(e.start <= i < e.end) ==> disk'[i] == disk[i])
            && fat.Remove(name).Valid()
            && UsedSpace(fat.Remove(name), disk') == UsedSpace(fat, disk) - (e.end - e.start)
  {
    var e := fat.entries[name];
    ClearedBytes(disk, e);
    UsedOverWithout(fat.keys, fat.entries, disk, Cleared(disk, e), name);
  }
}
