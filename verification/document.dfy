/**
 * The document model (CSDocumentModel): the record store with its id
 * counter and visible projection, and the load and save pipelines that
 * chain the cipher, the compression envelope and the legacy archive.
 * NSArchiver/NSUnarchiver and the other foreign code are parameters.
 */
module Document {
  import opened Common
  import opened Records
  import Compression
  import Crypto

  /** kCCBlockSizeBlowfish: the IV at the front of the container is one block. */
  const IvSize: nat := Crypto.BlockSizeBlowfish

  /**
   * NSArchiver.archivedData(withRootObject:) and
   * `NSUnarchiver.unarchiveObject(with:) as? NSMutableArray` for the root
   * array of entries; the latter is None when the data does not unarchive to
   * an array.
   */
  datatype Archiver = Archiver(
    archivedData: seq<ArchivedObject> -> seq<byte>,
    unarchiveObject: seq<byte> -> Option<seq<ArchivedObject>>)

  /** The foreign code the load and save pipelines call. */
  datatype Foreign = Foreign(crypt: Crypto.CCCrypt, zlib: Compression.Zlib, archiver: Archiver)

  /** Unarchiving what was archived gives back the same array. */
  ghost predicate ArchiverContract(a: Archiver)
  {
    forall objects :: a.unarchiveObject(a.archivedData(objects)) == Some(objects)
  }

  ghost predicate ForeignContract(env: Foreign)
  {
    Crypto.CipherContract(env.crypt) && Compression.ZlibContract(env.zlib) && ArchiverContract(env.archiver)
  }

  /** setItems(fromArray:): the dictionary at index i becomes the entry with id i; other elements are skipped. */
  function EntriesOf(objects: seq<ArchivedObject>): (items: map<int, Entry>)
    ensures forall id :: id in items ==> 0 <= id < |objects|
    ensures forall i :: 0 <= i < |objects| ==> (i in items <==> objects[i].Dictionary?)
  {
    map i | 0 <= i < |objects| && objects[i].Dictionary? :: objects[i].entry
  }

  /** The archived objects list the entries of items as dictionaries, in the order order lists their ids. */
  ghost predicate Listing(objects: seq<ArchivedObject>, order: seq<int>, items: map<int, Entry>)
  {
    Enumerates(order, items.Keys) && |objects| == |order|
    && forall i :: 0 <= i < |objects| ==> order[i] in items && objects[i] == Dictionary(items[order[i]])
  }

  /** The ids of items whose entry satisfies the predicate. */
  ghost function Matching(items: map<int, Entry>, test: Entry -> bool): set<int>
  {
    set id | id in items && test(items[id])
  }

  /** Decrypt, decompress and unarchive: None when the cipher or the unarchiver fails. */
  function Opened(env: Foreign, iv: Option<seq<byte>>, encryptedData: seq<byte>, key: seq<byte>)
    : (r: Outcome<Option<seq<ArchivedObject>>>)
    requires Crypto.ValidIv(iv)
    ensures var decrypted := Crypto.BlowfishCrypt(env.crypt, Crypto.DecryptOperation, encryptedData, key,
                                                  Crypto.PKCS7Padding, iv);
      && (decrypted.status != Crypto.kCCSuccess ==> r == Done(None))
      && (r == Halt ==> Compression.IsCompressed(decrypted.data) && |decrypted.data| >= 4)
  {
    var decrypted := Crypto.BlowfishCrypt(env.crypt, Crypto.DecryptOperation, encryptedData, key, Crypto.PKCS7Padding, iv);
    if decrypted.status != Crypto.kCCSuccess then Done(None)
    else
      match Compression.Decompressed(env.zlib, decrypted.data)
      case Halt => Halt
      case Done(data) => Done(env.archiver.unarchiveObject(data))
  }

  /**
   * Archive, compress, then encrypt under a fresh IV: None without a key,
   * without randomness or when the cipher fails; otherwise the IV followed
   * by the ciphertext.
   */
  function Sealed(env: Foreign, objects: seq<ArchivedObject>, key: Option<seq<byte>>, randomIv: Option<seq<byte>>)
    : (r: Outcome<Option<seq<byte>>>)
    requires randomIv.Some? ==> |randomIv.value| == IvSize
    ensures r.Done? && r.value.Some? ==>
      key.Some? && randomIv.Some? && |r.value.value| >= IvSize && r.value.value[..IvSize] == randomIv.value
    ensures r == Halt <==>
      Compression.Compressed(env.zlib, env.archiver.archivedData(objects), Compression.Z_DEFAULT_COMPRESSION) == Halt
  {
    var itemData := env.archiver.archivedData(objects);
    match Compression.Compressed(env.zlib, itemData, Compression.Z_DEFAULT_COMPRESSION)
    case Halt => Halt
    case Done(compressedData) =>
      if key.None? || randomIv.None? then Done(None)
      else
        var encrypted := Crypto.BlowfishCrypt(env.crypt, Crypto.EncryptOperation, compressedData, key.value,
                                              Crypto.PKCS7Padding, randomIv);
        if encrypted.status != Crypto.kCCSuccess then Done(None)
        else Done(Some(randomIv.value + encrypted.data))
  }

  /**
   * Saving and then opening the saved bytes with the same key, the IV split
   * off the front, gives back the archived array, provided the foreign code
   * keeps its contracts and the archive fits the 32-bit length trailer.
   */
  lemma SaveThenOpen(env: Foreign, objects: seq<ArchivedObject>, key: seq<byte>, ivBytes: seq<byte>)
    requires ForeignContract(env)
    requires Crypto.ValidKey(key) && |ivBytes| == IvSize
    requires |env.archiver.archivedData(objects)| < Compression.Two32
    ensures var r := Sealed(env, objects, Some(key), Some(ivBytes));
      r.Done? && r.value.Some?
      && Opened(env, Some(r.value.value[..IvSize]), r.value.value[IvSize..], key) == Done(Some(objects))
  {
    var itemData := env.archiver.archivedData(objects);
    Compression.CompressRoundTrip(env.zlib, itemData, Compression.Z_DEFAULT_COMPRESSION);
    var compressedData := Compression.Compressed(env.zlib, itemData, Compression.Z_DEFAULT_COMPRESSION).value;
    Crypto.CryptRoundTrip(env.crypt, key, Some(ivBytes), compressedData);
    var encrypted := Crypto.BlowfishCrypt(env.crypt, Crypto.EncryptOperation, compressedData, key,
                                          Crypto.PKCS7Padding, Some(ivBytes));
    var file := ivBytes + encrypted.data;
    assert file[..IvSize] == ivBytes && file[IvSize..] == encrypted.data;
  }

  /**
   * Loading a saved array numbers the entries by their position in it: the
   * reopened store holds exactly the saved entries, each under the index at
   * which the save listed it.
   */
  lemma ReloadRenumbers(objects: seq<ArchivedObject>, order: seq<int>, items: map<int, Entry>)
    requires Listing(objects, order, items)
    ensures forall i :: i in EntriesOf(objects) <==> 0 <= i < |order|
    ensures forall i :: 0 <= i < |order| ==> EntriesOf(objects)[i] == items[order[i]]
    ensures forall id :: id in items ==> exists i :: 0 <= i < |order| && EntriesOf(objects)[i] == items[id]
  {
    forall id | id in items
      ensures exists i :: 0 <= i < |order| && EntriesOf(objects)[i] == items[id]
    {
      assert id in order;
      var i :| 0 <= i < |order| && order[i] == id;
      assert EntriesOf(objects)[i] == items[id];
    }
  }

  /** Collects the keys of a dictionary in its (unspecified) iteration order, as `[Int](items.keys)` does. */
  method ListKeys(items: map<int, Entry>) returns (keys: seq<int>)
    ensures Enumerates(keys, items.Keys)
  {
    keys := [];
    var remaining := items.Keys;
    while remaining != {}
      invariant remaining <= items.Keys
      invariant NoDuplicates(keys)
      invariant forall id :: id in keys <==> id in items && id !in remaining
      decreases remaining
    {
      var id := Pick(remaining);
      keys := keys + [id];
      remaining := remaining - {id};
    }
  }

  /** CSDocumentModel. */
  class DocumentModel {
    var iv: Option<seq<byte>>
    var encryptedData: Option<seq<byte>>
    var key: Option<seq<byte>>
    var items: map<int, Entry>
    var itemIncrementer: int
    var visibleItemIds: seq<int>
    var sortingDescriptor: Option<Comparator>

    /**
     * The store's invariant: every id in use is below the counter, the visible
     * projection never lists an id twice, the IV is one block, and the sort
     * descriptor is a strict weak ordering. Visible ids need NOT be in use:
     * a deleted id stays visible until the next filter.
     */
    ghost predicate Valid()
      reads this
    {
      0 <= itemIncrementer
      && (forall id :: id in items ==> 0 <= id < itemIncrementer)
      && NoDuplicates(visibleItemIds)
      && Crypto.ValidIv(iv)
      && (sortingDescriptor.Some? ==> IsSortDescriptor(sortingDescriptor.value))
    }

    /** The visible projection is in the order of the active descriptor, if there is one. */
    ghost predicate VisibleSorted()
      reads this
    {
      sortingDescriptor.Some? ==> SortedBy(visibleItemIds, sortingDescriptor.value, items)
    }

    constructor ()
      ensures Valid()
      ensures iv == None && encryptedData == None && key == None
      ensures items == map[] && itemIncrementer == 0 && visibleItemIds == [] && sortingDescriptor == None
    {
      iv := None;
      encryptedData := None;
      key := None;
      items := map[];
      itemIncrementer := 0;
      visibleItemIds := [];
      sortingDescriptor := None;
    }

    /** arrayFromItems(): every entry once, as a dictionary, in the dictionary's iteration order. */
    method ArrayFromItems() returns (objects: seq<ArchivedObject>, ghost order: seq<int>)
      ensures Listing(objects, order, items)
      ensures |objects| == |items|
      ensures forall i :: 0 <= i < |objects| ==> objects[i].Dictionary? && objects[i].entry in items.Values
    {
      objects := [];
      order := [];
      var remaining := items.Keys;
      while remaining != {}
        invariant remaining <= items.Keys
        invariant NoDuplicates(order)
        invariant forall id :: id in order <==> id in items && id !in remaining
        invariant |objects| == |order|
        invariant forall i :: 0 <= i < |objects| ==> order[i] in items && objects[i] == Dictionary(items[order[i]])
        decreases remaining
      {
        var id := Pick(remaining);
        objects := objects + [Dictionary(items[id])];
        order := order + [id];
        remaining := remaining - {id};
      }
      DistinctCardinality(order);
      assert forall id :: id in (set id | id in order) <==> id in items.Keys;
      assert (set id | id in order) == items.Keys;
    }

    /**
     * setItems(fromArray:): the counter becomes the array's length and the
     * entries are exactly its dictionaries, each under its index.
     */
    method SetItems(objects: seq<ArchivedObject>)
      requires Valid()
      modifies this`items, this`itemIncrementer
      ensures Valid()
      ensures items == EntriesOf(objects) && itemIncrementer == |objects|
    {
      itemIncrementer := |objects|;
      items := map[];
      for i := 0 to |objects|
        invariant itemIncrementer == |objects|
        invariant forall id :: id in items <==> 0 <= id < i && objects[id].Dictionary?
        invariant forall id :: id in items ==> items[id] == objects[id].entry
      {
        if objects[i].Dictionary? {
          items := items[i := objects[i].entry];
        }
      }
      assert items == EntriesOf(objects);
    }

    /**
     * setEncryptedData(_:) as written: the first block is the IV and the rest
     * the ciphertext. On a file shorter than one block the slice
     * `data[0..<ivSize]` traps and the process stops.
     */
    method SetEncryptedData(data: seq<byte>) returns (r: Outcome<()>)
      requires Valid()
      modifies this`iv, this`encryptedData
      ensures Valid()
      ensures r == Halt <==> |data| < IvSize
      ensures r == Halt ==> iv == old(iv) && encryptedData == old(encryptedData)
      ensures r.Done? ==> iv == Some(data[..IvSize]) && encryptedData == Some(data[IvSize..])
      ensures r.Done? ==> iv.value + encryptedData.value == data
    {
      if |data| < IvSize {
        return Halt;
      }
      iv := Some(data[..IvSize]);
      encryptedData := Some(data[IvSize..]);
      r := Done(());
    }

    /**
     * setEncryptedData(_:) with the length check that opening a file lacks:
     * a file shorter than one block is refused with nothing changed, so that
     * reading it can report an error instead of stopping the application.
     */
    method SetEncryptedDataChecked(data: seq<byte>) returns (ok: bool)
      requires Valid()
      modifies this`iv, this`encryptedData
      ensures Valid()
      ensures ok <==> |data| >= IvSize
      ensures !ok ==> iv == old(iv) && encryptedData == old(encryptedData)
      ensures ok ==> iv == Some(data[..IvSize]) && encryptedData == Some(data[IvSize..])
      ensures ok ==> iv.value + encryptedData.value == data
    {
      if |data| < IvSize {
        return false;
      }
      iv := Some(data[..IvSize]);
      encryptedData := Some(data[IvSize..]);
      ok := true;
    }

    /**
     * decrypt(withKey:): false, with nothing changed, when there is no
     * ciphertext, the cipher fails or the data does not unarchive to an
     * array; otherwise the entries are loaded, all made visible, the
     * ciphertext dropped and the key kept.
     */
    method Decrypt(env: Foreign, key: seq<byte>) returns (r: Outcome<bool>)
      requires Valid()
      modifies this`items, this`itemIncrementer, this`visibleItemIds, this`encryptedData, this`key
      ensures Valid()
      ensures old(encryptedData).None? ==> r == Done(false)
      ensures old(encryptedData).Some? ==>
        var loaded := Opened(env, old(iv), old(encryptedData).value, key);
        (r == Halt <==> loaded == Halt) && (r == Done(true) <==> loaded.Done? && loaded.value.Some?)
        && (r == Done(true) ==>
              items == EntriesOf(loaded.value.value) && itemIncrementer == |loaded.value.value|)
      ensures r == Done(true) ==>
        Enumerates(visibleItemIds, items.Keys) && VisibleSorted()
        && encryptedData == None && this.key == Some(key)
      ensures r != Done(true) ==>
        items == old(items) && itemIncrementer == old(itemIncrementer) && visibleItemIds == old(visibleItemIds)
        && encryptedData == old(encryptedData) && this.key == old(this.key)
    {
      if encryptedData.Some? {
        var status, compressedData := Crypto.Decrypt(env.crypt, encryptedData.value, key, iv);
        if status != Crypto.kCCSuccess {
          return Done(false);
        }
        var data := Compression.Decompress(env.zlib, compressedData);
        if data.Halt? {
          return Halt;
        }
        var itemsArray := env.archiver.unarchiveObject(data.value);
        if itemsArray.Some? {
          SetItems(itemsArray.value);
          SetAllVisible();
          encryptedData := None;
          this.key := Some(key);
          return Done(true);
        }
      }
      return Done(false);
    }

    /**
     * compressAndEncrypt(): archives the entries (listed in `saved`), then
     * compresses, encrypts under the random IV and prepends it; `randomIv`
     * is what SecRandomCopyBytes delivered, None when it failed.
     */
    method CompressAndEncrypt(env: Foreign, randomIv: Option<seq<byte>>)
      returns (r: Outcome<Option<seq<byte>>>, ghost saved: seq<ArchivedObject>, ghost order: seq<int>)
      requires randomIv.Some? ==> |randomIv.value| == IvSize
      ensures Listing(saved, order, items)
      ensures r == Sealed(env, saved, key, randomIv)
      ensures r.Done? && r.value.Some? ==>
        key.Some? && randomIv.Some? && |r.value.value| >= IvSize && r.value.value[..IvSize] == randomIv.value
    {
      var itemsArray;
      itemsArray, order := ArrayFromItems();
      saved := itemsArray;
      var itemData := env.archiver.archivedData(itemsArray);
      var compressedData := Compression.Compress(env.zlib, itemData);
      if compressedData.Halt? {
        return Halt, saved, order;
      }
      if key.None? {
        return Done(None), saved, order;
      }
      if randomIv.None? {
        return Done(None), saved, order;
      }
      var ivBytes := randomIv.value;
      var cryptStatus, encryptedData := Crypto.Encrypt(env.crypt, compressedData.value, key.value, Some(ivBytes));
      if cryptStatus != Crypto.kCCSuccess {
        return Done(None), saved, order;
      }
      var ivAndData := ivBytes + encryptedData;
      r := Done(Some(ivAndData));
    }

    /** numberOfItems: the number of entries, which the counter bounds. */
    function NumberOfItems(): (n: nat)
      requires Valid()
      reads this
      ensures n == |items.Keys| && n <= itemIncrementer
    {
      BoundedSetSize(items.Keys, itemIncrementer);
      |items|
    }

    /** numberOfVisibleItems: the number of rows, which is the number of distinct visible ids. */
    function NumberOfVisibleItems(): (n: nat)
      requires Valid()
      reads this
      ensures n == |set id | id in visibleItemIds|
    {
      DistinctCardinality(visibleItemIds);
      |visibleItemIds|
    }

    /** id(fromVisibleIndex:): the id on a row; the row is the only one showing that id. */
    function IdFromVisibleIndex(index: int): (id: int)
      requires Valid()
      requires 0 <= index < |visibleItemIds|
      reads this
      ensures id in visibleItemIds
      ensures forall j :: 0 <= j < |visibleItemIds| && visibleItemIds[j] == id ==> j == index
    {
      visibleItemIds[index]
    }

    /** item(withId:): the entry stored under id, None for an id not in use. */
    function Item(id: int): (r: Option<Entry>)
      reads this
      ensures r.Some? <==> id in items
      ensures r.Some? ==> r.value == items[id]
    {
      Lookup(items, id)
    }

    /**
     * visibleItem(atIndex:): None past the last row, and None for a row whose
     * id has been deleted since the last filter.
     */
    function VisibleItem(index: int): (r: Option<Entry>)
      requires 0 <= index
      reads this
      ensures index >= |visibleItemIds| ==> r == None
      ensures index < |visibleItemIds| ==> r == Item(visibleItemIds[index])
    {
      if index >= |visibleItemIds| then None else Lookup(items, visibleItemIds[index])
    }

    /** delete(id:): removes that id only; the counter and the visible projection stay as they are. */
    method Delete(id: int)
      requires Valid()
      modifies this`items
      ensures Valid()
      ensures items == old(items) - {id}
      ensures id !in old(items) ==> items == old(items)
      ensures itemIncrementer == old(itemIncrementer) && visibleItemIds == old(visibleItemIds)
    {
      items := items - {id};
    }

    /** delete(ids:): deleting each id in turn removes exactly those ids. */
    method DeleteIds(ids: seq<int>)
      requires Valid()
      modifies this`items
      ensures Valid()
      ensures items == old(items) - set id | id in ids
      ensures itemIncrementer == old(itemIncrementer) && visibleItemIds == old(visibleItemIds)
    {
      for i := 0 to |ids|
        invariant Valid()
        invariant items == old(items) - set id | id in ids[..i]
      {
        Delete(ids[i]);
        assert ids[..i + 1] == ids[..i] + [ids[i]];
      }
      assert ids[..|ids|] == ids;
    }

    /**
     * newItem(withDictionary:): the id is the counter, above every id in use,
     * the entry is stored under it, and the counter moves on by one.
     */
    method NewItem(dict: Entry) returns (id: int)
      requires Valid()
      modifies this`items, this`itemIncrementer
      ensures Valid()
      ensures id == old(itemIncrementer) && itemIncrementer == old(itemIncrementer) + 1
      ensures forall other :: other in old(items) ==> other < id
      ensures items == old(items)[id := dict]
      ensures Item(id) == Some(dict)
      ensures visibleItemIds == old(visibleItemIds)
    {
      id := itemIncrementer;
      items := items[id := dict];
      itemIncrementer := itemIncrementer + 1;
    }

    /**
     * sort(): with no descriptor nothing changes; otherwise the visible ids
     * are reordered so that none compares ascending to an earlier one. A
     * visible id whose item was deleted reaches the descriptor as NSNull,
     * whose key lookup raises; with two or more visible ids every one of
     * them is compared, so that stops the process.
     */
    method Sort() returns (r: Outcome<()>)
      requires Valid()
      modifies this`visibleItemIds
      ensures Valid()
      ensures r == Halt <==>
        sortingDescriptor.Some? && |old(visibleItemIds)| >= 2 && exists id :: id in old(visibleItemIds) && id !in items
      ensures r == Halt || sortingDescriptor.None? ==> visibleItemIds == old(visibleItemIds)
      ensures multiset(visibleItemIds) == multiset(old(visibleItemIds))
      ensures r.Done? ==> VisibleSorted()
    {
      if sortingDescriptor.Some? {
        if |visibleItemIds| >= 2 && exists id :: id in visibleItemIds && id !in items {
          return Halt;
        }
        var sorted := SortIds(visibleItemIds, sortingDescriptor.value, items);
        DistinctMultiset(visibleItemIds);
        DistinctMultiset(sorted);
        visibleItemIds := sorted;
      }
      return Done(());
    }

    /**
     * sort(using:): keeps the descriptor for later filters and sorts the
     * visible ids by it; the descriptor is kept even when the sort stops.
     */
    method SortUsing(descriptor: Comparator) returns (r: Outcome<()>)
      requires Valid()
      requires IsSortDescriptor(descriptor)
      modifies this`sortingDescriptor, this`visibleItemIds
      ensures Valid()
      ensures sortingDescriptor == Some(descriptor)
      ensures r == Halt <==> |old(visibleItemIds)| >= 2 && exists id :: id in old(visibleItemIds) && id !in items
      ensures r == Halt ==> visibleItemIds == old(visibleItemIds)
      ensures multiset(visibleItemIds) == multiset(old(visibleItemIds))
      ensures r.Done? ==> VisibleSorted()
    {
      sortingDescriptor := Some(descriptor);
      r := Sort();
    }

    /** setAllVisible(): every id in use, once each, sorted by the active descriptor. */
    method SetAllVisible()
      requires Valid()
      modifies this`visibleItemIds
      ensures Valid()
      ensures Enumerates(visibleItemIds, items.Keys)
      ensures VisibleSorted()
    {
      var keys := ListKeys(items);
      visibleItemIds := keys;
      var sorted := Sort();
      assert sorted.Done?;
      PermutationKeepsEnumeration(keys, visibleItemIds, items.Keys);
    }

    /** filter(withPredicate:): exactly the ids whose entry satisfies the predicate, once each, then sorted. */
    method FilterWithPredicate(test: Entry -> bool)
      requires Valid()
      modifies this`visibleItemIds
      ensures Valid()
      ensures Enumerates(visibleItemIds, Matching(items, test))
      ensures VisibleSorted()
    {
      visibleItemIds := [];
      var remaining := items.Keys;
      while remaining != {}
        invariant Valid()
        invariant remaining <= items.Keys
        invariant forall id :: id in visibleItemIds <==> id in items && id !in remaining && test(items[id])
        decreases remaining
      {
        var id := Pick(remaining);
        if test(items[id]) {
          visibleItemIds := visibleItemIds + [id];
        }
        remaining := remaining - {id};
      }
      ghost var unsorted := visibleItemIds;
      assert Enumerates(unsorted, Matching(items, test));
      var sorted := Sort();
      assert sorted.Done?;
      PermutationKeepsEnumeration(unsorted, visibleItemIds, Matching(items, test));
    }

    /**
     * filter(byKey:using:): an empty search string shows everything;
     * otherwise exactly the ids whose entry contains it in that key.
     */
    method FilterByKey(ts: TextServices, key: string, filterValue: string)
      requires Valid()
      modifies this`visibleItemIds
      ensures Valid()
      ensures filterValue == [] ==> Enumerates(visibleItemIds, items.Keys)
      ensures filterValue != [] ==>
        Enumerates(visibleItemIds, set id | id in items && EntryContains(ts, items[id], filterValue, key))
      ensures VisibleSorted()
    {
      if filterValue == [] {
        SetAllVisible();
      } else {
        FilterWithPredicate(entry => EntryContains(ts, entry, filterValue, key));
      }
    }

    /**
     * filter(using:): an empty search string shows everything; otherwise
     * exactly the ids whose entry contains it in some key.
     */
    method FilterAnyKey(ts: TextServices, filterValue: string)
      requires Valid()
      modifies this`visibleItemIds
      ensures Valid()
      ensures filterValue == [] ==> Enumerates(visibleItemIds, items.Keys)
      ensures filterValue != [] ==>
        Enumerates(visibleItemIds, set id | id in items && MatchesAnyKey(ts, items[id], filterValue))
      ensures VisibleSorted()
    {
      if filterValue == [] {
        SetAllVisible();
      } else {
        FilterWithPredicate(entry => MatchesAnyKey(ts, entry, filterValue));
      }
    }
  }
}
