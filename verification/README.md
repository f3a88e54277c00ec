# CiphSwift document model in Dafny

CiphSwift is a macOS password keeper. Its document is a list of password
entries: dictionaries with the keys name, account, password, url, category
and notes. On disk a document is one encrypted container:

    file  = IV (8 bytes) ‖ Blowfish-CBC/PKCS#7( compressed )
    compressed = zlib stream ‖ uncompressed length (4 bytes, big-endian)
    uncompressed = NSArchiver archive of an array of entry dictionaries

The key is derived from the passphrase. The buffer `0xFE 0xFF` ‖
UTF-16BE(passphrase) is cut in half, and the key is SHA-1 of the first half
followed by SHA-1 of the second half, 40 bytes in all.

This project models three parts:

- `CSDocumentModel`, the record store. It is the class
  `Document.DocumentModel` with the same fields, and its methods change them
  as the Swift methods do. The load pipeline `decrypt(withKey:)` and the save
  pipeline `compressAndEncrypt()` are specified by the functions
  `Document.Opened` and `Document.Sealed`.
- The `CSFields` lookups, in module `Fields`.
- The `Data` extensions for the key, the cipher buffer framing and the
  compression envelope, in modules `Crypto` and `Compression`.

Module `Records` holds the entry search and the ordering by sort
descriptor. Module `Common` holds bytes, `Option`, and `Outcome`. An
`Outcome` is `Halt` where the Swift code would stop on a runtime trap, on a
failed `assert`, or on an Objective-C exception it does not catch. Swift checks `assert` only in Debug builds, so `Halt` on an
assert follows a Debug build (see "Left out" for what a Release build does).

Foreign code is passed in as function-valued parameters. This covers
CommonCrypto's `CCCrypt` and `CC_SHA1`, zlib's `compress2` and `uncompress`,
`NSArchiver`/`NSUnarchiver`, the RTFD text of `NSAttributedString`,
`localizedCaseInsensitiveContains` and `NSSortDescriptor.compare`. Each
property that depends on that code carries the code's contract as a
precondition:

- `Crypto.CipherContract`: decrypting what was encrypted gives it back, and
  PKCS#7 output has the padded length.
- `Compression.ZlibContract`: at a level zlib accepts (-1 to 9) and with
  zlib's documented room, deflate succeeds, fits, starts with an RFC 1950
  header, and inflates back.
- `Document.ArchiverContract`: unarchiving what was archived gives it back.
- `Records.IsSortDescriptor`: "compares ascending" is a strict weak order.

`SecRandomCopyBytes` becomes an input: the IV it produced, or None when it
failed. The order in which a Swift dictionary is iterated is left open. The
loops pick keys with `Common.Pick`, and their contracts speak of sets and of
lists without duplicates.

Points where the code behaves differently from what a reader might expect,
and which the model follows:

- `delete` leaves deleted ids in the visible list until the next filter.
  Sorting such a list with a descriptor and two or more visible ids hands
  the descriptor an NSNull, whose key lookup raises, so the process stops.
- The sort is not stable.
- The cipher output capacity is `((n+8)/8)*8`, the PKCS#7 padded length.
- The zlib sniff needs 2 bytes, not 4.
- `id(fromVisibleIndex:)` has no bounds check, so it gets a precondition.
- The passphrase buffer always has even length, so its two halves are
  always equal in length.

## Model

| member | source | states |
|---|---|---|
| `Compression.SniffIsZlibHeader` | CiphSwift/Extension/Data+Compression.swift:5-17 | the sniff holds iff there are at least 2 bytes, CM = 8, CINFO <= 7 and CMF*256+FLG is a multiple of 31 (RFC 1950 section 2.2) |
| `Compression.SniffReadsHeaderOnly` | CiphSwift/Extension/Data+Compression.swift:9-16 | only the first two bytes decide the sniff |
| `Compression.SniffExamples` | CiphSwift/Extension/Data+Compression.swift:6-8 | a buffer under 2 bytes never sniffs as zlib; the default-level header 78 9C does |
| `Compression.Be32Encode` | CiphSwift/Extension/Data+Compression.swift:69-73 | the length trailer is 4 bytes |
| `Compression.Be32Decode` | CiphSwift/Extension/Data+Compression.swift:23-26 | reading the trailer yields a 32-bit value |
| `Compression.Be32DecodeEncode` | CiphSwift/Extension/Data+Compression.swift:23-26 | decoding an encoded trailer gives back every 32-bit length |
| `Compression.Be32EncodeDecode` | CiphSwift/Extension/Data+Compression.swift:69-73 | encoding a decoded trailer gives back every 4-byte trailer |
| `Compression.IsCompressed` | CiphSwift/Extension/Data+Compression.swift:5-17 | false for a buffer under 2 bytes; otherwise decided by the two masks on byte 0 and fcheck mod 31 (characterised by `SniffIsZlibHeader`) |
| `Compression.CompressBufferLength` | CiphSwift/Extension/Data+Compression.swift:53 | the length is ceil(1.001 n) + 16, stated as the two inequalities that define the ceiling, and it leaves zlib's documented room (0.1% plus 12 bytes) with 4 bytes to spare for the trailer |
| `Compression.Compressed` | CiphSwift/Extension/Data+Compression.swift:51-76 | the output ends in the big-endian input length; it halts when zlib fails or overflows, and under zlib's contract and at a level zlib accepts it succeeds and sniffs as zlib for every input below 2^32 bytes |
| `Compression.Compress` | CiphSwift/Extension/Data+Compression.swift:51-76 | the buffer-filling implementation, trailer written in place, computes `Compressed` |
| `Compression.Inflated` | CiphSwift/Extension/Data+Compression.swift:23-44 | a successful inflate has the length the trailer states; a zero trailer gives the empty buffer without calling zlib |
| `Compression.Inflate` | CiphSwift/Extension/Data+Compression.swift:23-44 | the buffer-filling implementation computes `Inflated` |
| `Compression.DecompressedAsWritten` | CiphSwift/Extension/Data+Compression.swift:19-49 | input that does not sniff as zlib comes back unchanged; a sniffing buffer under 4 bytes halts |
| `Compression.DecompressAsWritten` | CiphSwift/Extension/Data+Compression.swift:19-49 | the method as written computes `DecompressedAsWritten` |
| `Compression.Decompressed` | CiphSwift/Extension/Data+Compression.swift:19-49 | non-zlib input and input under 4 bytes come back unchanged; a result from the zlib path has the trailer's length; on every input except a 2- or 3-byte buffer that sniffs as zlib it agrees with the code as written |
| `Compression.Decompress` | CiphSwift/Extension/Data+Compression.swift:19-49 | the corrected method computes `Decompressed` |
| `Compression.CompressRoundTrip` | CiphSwift/Extension/Data+Compression.swift:19-76 | under zlib's contract and at a level zlib accepts, decompressing a compressed buffer gives back the original, with either decompressor |
| `Compression.ShortZlibHeaderHalts` | CiphSwift/Extension/Data+Compression.swift:21 | the 2-byte buffer 78 01 sniffs as zlib; as written it halts, the corrected decompressor returns it unchanged |
| `Crypto.Utf16BEScalar` | CiphSwift/Extension/Data+Crypto.swift:42 | a scalar takes two bytes below U+10000 and four (a surrogate pair) above |
| `Crypto.Utf16BE` | CiphSwift/Extension/Data+Crypto.swift:42 | the encoding has even length, at least two bytes per character |
| `Crypto.Utf16BERoundTrip` | CiphSwift/Extension/Data+Crypto.swift:42 | decoding the UTF-16BE encoding of a string gives back the string |
| `Crypto.PassphraseData` | CiphSwift/Extension/Data+Crypto.swift:38-42 | the hashed buffer is FE FF followed by the UTF-16BE encoding, so it has even length |
| `Crypto.KeyFromString` | CiphSwift/Extension/Data+Crypto.swift:37-49 | the key is 40 bytes, inside Blowfish's 8..56 key size |
| `Crypto.KeyHalves` | CiphSwift/Extension/Data+Crypto.swift:43-47 | the halves have equal length and make up the buffer; key bytes 0..19 hash the first half, 20..39 the second |
| `Crypto.EmptyPassphraseKey` | CiphSwift/Extension/Data+Crypto.swift:37-49 | the empty passphrase hashes FE and FF separately |
| `Crypto.Capacity` | CiphSwift/Extension/Data+Crypto.swift:60 | the capacity is a multiple of 8, above n and at most n+8 |
| `Crypto.CapacityIsPaddedLength` | CiphSwift/Extension/Data+Crypto.swift:60 | the capacity is the least multiple of 8 above n, the PKCS#7 padded length |
| `Crypto.Filled` | CiphSwift/Extension/Data+Crypto.swift:61 | the output buffer `Data(count: capacity)` has the capacity's length and holds what CCCrypt wrote at its front |
| `Crypto.Resized` | CiphSwift/Extension/Data+Crypto.swift:90 | `dataOut.count = dataOutMoved` gives a buffer of that length, the prefix when it shrinks |
| `Crypto.BlowfishCrypt` | CiphSwift/Extension/Data+Crypto.swift:52-92 | CCCrypt is called with the padded capacity; its status comes back unchanged and the output is cut to the byte count it reports |
| `Crypto.BlowfishCryptOperation` | CiphSwift/Extension/Data+Crypto.swift:52-92 | the implementation over a mutable output buffer, with the 8-byte IV as precondition, computes `BlowfishCrypt` |
| `Crypto.Encrypt` | CiphSwift/Extension/Data+Crypto.swift:27-35 | encryption is the operation with the encrypt flag |
| `Crypto.Decrypt` | CiphSwift/Extension/Data+Crypto.swift:17-25 | decryption is the operation with the decrypt flag |
| `Crypto.CryptRoundTrip` | CiphSwift/Extension/Data+Crypto.swift:17-35 | under the cipher's contract, decrypting an encryption with the same key and IV succeeds and gives back the plaintext through the buffer framing |
| `Records.EntryContains` | CiphSwift/Model/CSDocumentModel.swift:158-167 | a match needs the key present with a string or RTFD value; a string value matches exactly when it contains the search string |
| `Records.MatchesAnyKey` | CiphSwift/Model/CSDocumentModel.swift:185-195 | the `filter(using:)` closure: a match in any one key is a match of the entry, and a match needs some string or data value |
| `Records.SearchAllKeys` | CiphSwift/Model/CSDocumentModel.swift:185-195 | the key loop finds a match exactly when some key of the entry matches |
| `Records.Lookup` | CiphSwift/Model/CSDocumentModel.swift:131 | the dictionary lookup is present exactly for ids in use, with their entry |
| `Records.Precedes` | CiphSwift/Model/CSDocumentModel.swift:130-132 | the `sort(by:)` predicate on two ids; under a sort descriptor it is asymmetric and no id precedes itself |
| `Records.InsertKeepsSorted` | CiphSwift/Model/CSDocumentModel.swift:130-132 | inserting at the right point keeps the ids ordered by a strict weak order |
| `Records.InsertionPoint` | CiphSwift/Model/CSDocumentModel.swift:130-132 | finds a point with nothing after it ordered below the new id and nothing before it above |
| `Records.SortIds` | CiphSwift/Model/CSDocumentModel.swift:130-132 | the sorted ids are a permutation of the input in which no later id compares ascending to an earlier one |
| `Fields.FieldWithKey` | CiphSwift/Model/CSDocumentModel.swift:205-209 | a field keeps its key; its column identifier is the key plus "Column" and its cell identifier the key plus "Cell", so the two never coincide |
| `Fields.AllFields` | CiphSwift/Model/CSDocumentModel.swift:213-220 | six fields, the one at each position built from that position's key, and no key appears twice |
| `Fields.FirstWhere` | CiphSwift/Model/CSDocumentModel.swift:229-231 | `first(where:)` returns the earliest matching field, or none when no field matches |
| `Fields.ByIndex` | CiphSwift/Model/CSDocumentModel.swift:222-225 | a field exactly for indices 0..5, the one built from that key |
| `Fields.ByKey` | CiphSwift/Model/CSDocumentModel.swift:234-238 | a field exactly for the six keys, the one built from that key |
| `Fields.ByColumn` | CiphSwift/Model/CSDocumentModel.swift:227-232 | none for no identifier; a found field has that column identifier |
| `Fields.ByKeyOfByIndex` | CiphSwift/Model/CSDocumentModel.swift:213-225 | looking up the key of the field at an index finds that same field |
| `Fields.ByColumnOfKey` | CiphSwift/Model/CSDocumentModel.swift:200-238 | looking up a key's column identifier agrees with looking up the key |
| `Document.EntriesOf` | CiphSwift/Model/CSDocumentModel.swift:24-32 | exactly the indices of the array's dictionaries become ids |
| `Document.Opened` | CiphSwift/Model/CSDocumentModel.swift:40-61 | a cipher failure gives no array; a halt happens only on a decrypted buffer that sniffs as zlib |
| `Document.Sealed` | CiphSwift/Model/CSDocumentModel.swift:63-85 | a saved container needs a key and an IV and starts with that IV; the save halts exactly when compression does |
| `Document.SaveThenOpen` | CiphSwift/Model/CSDocumentModel.swift:34-85 | under the foreign contracts, opening a saved container with the same key gives back the saved array |
| `Document.ReloadRenumbers` | CiphSwift/Model/CSDocumentModel.swift:14-32 | reloading a saved array numbers the entries 0..n-1 by position and keeps every entry |
| `Document.ListKeys` | CiphSwift/Model/CSDocumentModel.swift:142 | `[Int](items.keys)` lists each key exactly once |
| `Document.DocumentModel.constructor` | CiphSwift/Model/CSDocumentModel.swift:5-12 | a new model is empty, with counter 0 and nothing visible |
| `Document.DocumentModel.ArrayFromItems` | CiphSwift/Model/CSDocumentModel.swift:14-22 | the array has one element per id in use, each a dictionary holding that id's entry, listed in some order of the ids |
| `Document.DocumentModel.SetItems` | CiphSwift/Model/CSDocumentModel.swift:24-32 | the counter becomes the array's length and the entries are exactly its dictionaries under their indices, so every id is below the counter |
| `Document.DocumentModel.SetEncryptedData` | CiphSwift/Model/CSDocumentModel.swift:34-38 | as written: a container of at least 8 bytes splits into the IV and the rest, which rejoin to the container; a shorter one stops the process |
| `Document.DocumentModel.SetEncryptedDataChecked` | CiphSwift/Model/CSDocumentModel.swift:34-38 | corrected: a container under 8 bytes is refused with nothing changed; otherwise the same split |
| `Document.DocumentModel.Decrypt` | CiphSwift/Model/CSDocumentModel.swift:40-61 | on failure nothing changes; on success the entries are those of the opened array, all visible and sorted, the ciphertext is dropped and the key kept |
| `Document.DocumentModel.CompressAndEncrypt` | CiphSwift/Model/CSDocumentModel.swift:63-85 | returns the save of a listing of the current entries; a saved container needs a key and an IV and starts with that IV |
| `Document.DocumentModel.NumberOfItems` | CiphSwift/Model/CSDocumentModel.swift:87-89 | the number of ids in use, never above the counter |
| `Document.DocumentModel.NumberOfVisibleItems` | CiphSwift/Model/CSDocumentModel.swift:91-93 | the number of distinct visible ids |
| `Document.DocumentModel.IdFromVisibleIndex` | CiphSwift/Model/CSDocumentModel.swift:95-97 | the id on a row, shown on no other row |
| `Document.DocumentModel.Item` | CiphSwift/Model/CSDocumentModel.swift:99-101 | the entry for an id in use, none otherwise |
| `Document.DocumentModel.VisibleItem` | CiphSwift/Model/CSDocumentModel.swift:120-126 | none past the last row; otherwise the lookup of the row's id, which is none for a deleted id |
| `Document.DocumentModel.Delete` | CiphSwift/Model/CSDocumentModel.swift:103-105 | removes only that id, does nothing for an absent id, and leaves the counter and the visible ids alone |
| `Document.DocumentModel.DeleteIds` | CiphSwift/Model/CSDocumentModel.swift:107-111 | removes exactly the listed ids |
| `Document.DocumentModel.NewItem` | CiphSwift/Model/CSDocumentModel.swift:113-118 | returns the old counter, above every id in use, stores the entry there and adds one to the counter |
| `Document.DocumentModel.Sort` | CiphSwift/Model/CSDocumentModel.swift:128-134 | stops exactly when a descriptor is set, two or more ids are visible and one of them has no item, leaving the list as it was; without a descriptor nothing changes; otherwise the visible ids are permuted into descriptor order |
| `Document.DocumentModel.SortUsing` | CiphSwift/Model/CSDocumentModel.swift:136-139 | keeps the descriptor, even when the sort stops, and sorts by it; stops exactly when two or more ids are visible and one of them has no item |
| `Document.DocumentModel.SetAllVisible` | CiphSwift/Model/CSDocumentModel.swift:141-144 | the visible ids are every id in use, once each, in descriptor order |
| `Document.DocumentModel.FilterWithPredicate` | CiphSwift/Model/CSDocumentModel.swift:146-154 | the visible ids are exactly the ids whose entry satisfies the predicate, once each, in descriptor order |
| `Document.DocumentModel.FilterByKey` | CiphSwift/Model/CSDocumentModel.swift:169-178 | an empty string shows every id; otherwise exactly the ids whose entry contains it in that key |
| `Document.DocumentModel.FilterAnyKey` | CiphSwift/Model/CSDocumentModel.swift:181-197 | an empty string shows every id; otherwise exactly the ids whose entry contains it in some key |

## Left out

- SHA-1, Blowfish, zlib, NSArchiver/NSUnarchiver, RTFD text extraction, locale-aware search and `NSSortDescriptor.compare` are foreign code. They are parameters, and their behaviour is given only by the stated contracts.
- `SecRandomCopyBytes` is randomness. Its result is an input of `CompressAndEncrypt`.
- NSUnarchiver raises an Objective-C exception on malformed data. The model treats malformed data as a failed unarchive (None).
- Entries are values, not shared `NSMutableDictionary` references. Aliasing between the store and the editor windows is not modelled.
- Entry keys are strings. The `key as? String` skip in `filter(using:)` cannot arise.
- `itemIncrementer` is an unbounded integer. The model does not capture the trap when Swift's `Int` overflows.
- `compress` sizes its buffer with floating point, `ceil(count*1.001)+12+4`. The model takes the ceiling exactly in integers. It does not model `Double` rounding.
- Swift's `assert` is checked only in Debug builds, and the model stops (`Halt`) where a Debug build does. A Release build does not evaluate the condition. The runtime traps (slices out of range, `UInt32(...)` of a length of 2^32 or more) stop both builds.
- Compression.Compressed: in a Release build, a failed or overflowing `compress2` (Data+Compression.swift:66) is not caught, and the buffer is framed and returned anyway; the model halts there.
- Compression.Inflated: in a Release build, a failed `uncompress` (Data+Compression.swift:44) is not caught, and the buffer of the trailer's length is returned holding whatever `uncompress` wrote before it failed, with zeros only after that; the model halts there.
- Crypto.BlowfishCryptOperation: the IV-length `assert` (Data+Crypto.swift:57-59) is a precondition, so the model says nothing of a Release build passing an IV of another length to CCCrypt.
- Document.Opened: uses the corrected `Compression.Decompressed`, so a ciphertext that decrypts to a 2- or 3-byte buffer sniffing as zlib (such as 78 01) gives the unarchiver's verdict on that buffer, where the code stops the process (see "Findings"). On every other decrypted buffer it agrees with the code.
- Document.DocumentModel.Decrypt: the same substitution as `Document.Opened`. On such a ciphertext it returns `Done` of the unarchive outcome, where the code stops the process.
- Document.DocumentModel.Sort: claims a permutation in descriptor order, not stability, because Swift does not promise `sort(by:)` is stable. The library's algorithm is modelled by an insertion sort with the same contract. The stop on a visible id without an item assumes the descriptor's key lookup on NSNull raises and that the exception ends the process; an application that catches it and carries on is not modelled.
- `CSEntryPasteboardItem`, the controllers, the window shake and the localisation helpers are outside the record store and its file format.

## Findings

| source | as written | input that shows it | evidently intended | confidence | as-written member | corrected member |
|---|---|---|---|---|---|---|
| CiphSwift/Model/CSDocumentModel.swift:34-38 | `setEncryptedData` slices `data[0..<8]` with no length check. Opening a file passes any file's contents to it unchecked (CSDocument.swift:138-145) | a file of 0 to 7 bytes: the slice traps and the application stops | a file too short to hold the IV is refused, so that opening it reports an error | not executed | `Document.DocumentModel.SetEncryptedData` | `Document.DocumentModel.SetEncryptedDataChecked` |
| CiphSwift/Extension/Data+Compression.swift:19-49 | `decompress` asserts that a buffer which sniffs as zlib has at least 4 bytes, then reads a 4-byte trailer | the decrypted 2-byte buffer 78 01 sniffs as zlib, so the assertion traps | input too short to carry a trailer is returned unchanged, like any other non-compressed input | not executed | `Compression.ShortZlibHeaderHalts` | `Compression.Decompressed` |

The load pipeline (`Document.Opened` and `Document.DocumentModel.Decrypt`) uses the corrected `Compression.Decompress`. `Compression.Decompressed` states that it differs from the code as written only on 2- and 3-byte buffers that sniff as zlib.
