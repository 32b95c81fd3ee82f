# Resource packer of the Gal engine, in Dafny

`packer.py` builds the engine's resource archive (`resources.pak`). It walks
the asset directories and skips the archive itself and every Python file. It
compresses each remaining file with zlib, encrypts the result with a
one-byte exclusive-or key (`KEY = 0x5A`), and stores it under its relative
path with backslashes turned into `/`. It then writes the archive: a u32-LE
entry count, then for each entry a u32-LE name length, the UTF-8 name, a
u32-LE data length and the data.

This project models that tool and proves what it promises:

- `cipher.dfy`, module `Cipher`: `xor_encrypt`. It is modelled with Python's
  semantics, where `b ^ key` works on unbounded integers and `bytes(...)`
  raises ValueError on a value outside 0..255. The proofs show that
  encryption fails exactly when the input is non-empty and the key is not a
  byte. They also show that it keeps the length and that it is its own
  inverse. With `KEY` it always succeeds.
- `paths.dfy`, module `Paths`: the path normalisation and the skip test.
- `utf8.dfy`, module `Utf8`: `name.encode("utf-8")` and a matching decoder.
  The two are proved to be inverse bijections.
- `bytes.dfy`, module `Bytes`: the `struct.pack("<I", n)` field and its
  reader, proved inverse in both directions.
- `archive.dfy`, module `Archive`: the archive writer. `Emit` is the
  sequence of bytes the writer puts into the file. It includes the case
  where `struct.pack` raises on a length of 2^32 or more. Writing then stops,
  and what was already written stays in the file. `DecodeArchive` is a
  reader for the layout. The proofs cover the header, the size, the entry
  order, where the writer stops, and the round trip in both directions. The
  `Sink` class is the output file, and `WriteArchive` is the writing loop
  over it.
- `packer.dfy`, module `Packer`: the collecting loop (`CollectFiles`) and
  `PackResources` as a whole. The proofs say which walked files end up in the
  archive and what their entries hold.
- `wrappers.dfy`: the `Option` type and associativity of concatenation.

The output file is recognised only by comparing the normalised relative path
with `output_file` exactly as the caller spelled it. The model keeps that
comparison as written.

## Model

| member | source | states |
|---|---|---|
| Cipher.XorEncrypt | packer.py:7-8 | `bytes([b ^ key for b in data])` succeeds exactly when data is empty or 0 <= key < 256; on success the output has the input's length and byte i is `data[i] ^ key` |
| Cipher.XorInByteRange | packer.py:8 | for every byte b, `b ^ key` lies in 0..255 exactly when the key does (a larger key keeps a high bit, a negative key gives a negative result) |
| Cipher.NatXorTwice | packer.py:8 | exclusive or with the same key twice gives back the input |
| Cipher.XorEncryptInvolution | packer.py:7-8 | encrypting the output of a successful encryption with the same key returns the original bytes, which is how the loader decrypts |
| Cipher.KeyEncryptsEverything | packer.py:5-8 | with KEY = 0x5A encryption never fails, keeps the length and is undone by a second application |
| Cipher.KeyExample | packer.py:5-8 | concrete case: bytes 0x00, 0xFF encrypt to 0x5A, 0xA5 |
| Paths.NormalizePath | packer.py:21 | `replace("\\", "/")`: same length, every backslash becomes '/', every other character is kept |
| Paths.NormalizePathProperties | packer.py:21 | a normalised path has no backslash; normalising is idempotent; a path is unchanged exactly when it has no backslash |
| Paths.EndsWithSplit | packer.py:24 | `endswith(suffix)` holds exactly when the string is some string followed by the suffix |
| Bytes.DecodeEncodeU32 | packer.py:34 | reading a `struct.pack("<I", n)` field gives back n |
| Bytes.EncodeDecodeU32 | packer.py:34 | every four-byte field is the encoding of the number it reads as |
| Utf8.EncodeChar | packer.py:36 | a character encodes to 1 to 4 bytes, and to exactly one byte when it is ASCII |
| Utf8.Encode | packer.py:36 | an encoded name takes between 1 and 4 bytes per character, and is empty exactly when the name is |
| Utf8.DecodeEncode | packer.py:36 | decoding an encoded name gives the name back |
| Utf8.EncodeDecode | packer.py:36 | any byte string the decoder accepts is the encoding of what it decodes to, so distinct names have distinct bytes |
| Utf8.EncodeAscii | packer.py:36 | an ASCII name encodes to one byte per character, each its code |
| Archive.EntryWrites | packer.py:37-40 | the writes of one entry complete exactly when both length fields fit in 32 bits |
| Archive.EmitEntriesCompleteIff | packer.py:35-40 | the entry loop finishes exactly when every entry's name length and data length are below 2^32 |
| Archive.EmitCompleteIff | packer.py:34-40 | the writer finishes exactly when the count and every length are below 2^32 |
| Archive.EmitHeader | packer.py:34 | whenever the entry count fits in 32 bits the archive starts with it as u32-LE, even if a later length stops the writing, and those four bytes read back as the count |
| Archive.EmitSize | packer.py:34-40 | a finished archive is 4 + the sum over entries of (4 + name bytes + 4 + data bytes) long |
| Archive.EmitEntriesAppend | packer.py:35-40 | the bytes for a + b are the bytes for a followed by the bytes for b, so entries appear in list order |
| Archive.EmitEntriesSnoc | packer.py:35-40 | one more fitting entry appends its name length, name, data length and data at the end |
| Archive.EmitEntriesStopsAt | packer.py:35-40 | when entry k has a length that does not fit, the loop wrote entries 0..k-1 in full, then the part of entry k before the bad field, then nothing |
| Archive.EmitStopsAt | packer.py:34-40 | the same for the file: count, earlier entries, then the name length and name of entry k only if its name fit |
| Archive.ExampleArchive | packer.py:34-40 | concrete case: one entry "a" holding 0x5A is written as 1,0,0,0, 1,0,0,0, 97, 1,0,0,0, 0x5A |
| Archive.DecodeEntry | packer.py:37-40 | reading one entry consumes at least the eight length bytes and never more than is there |
| Archive.DecodeEntries | packer.py:35-40 | a successful read of `count` entries yields exactly `count` entries |
| Archive.DecodeEntryBytes | packer.py:37-40 | the reader takes exactly one entry's bytes off the front, whatever follows |
| Archive.DecodeEntryExact | packer.py:37-40 | whatever the reader accepts as one entry is exactly that entry's bytes, with fitting lengths |
| Archive.DecodeEmitEntries | packer.py:35-40 | reading back the bytes of the entry loop gives the same entries in the same order |
| Archive.DecodeEmit | packer.py:34-40 | reading back a finished archive gives exactly the entries written |
| Archive.EmitDecodeEntries | packer.py:35-40 | any byte string the entry reader accepts is what the loop writes for the entries read |
| Archive.EmitDecode | packer.py:34-40 | any archive the reader accepts is what the writer produces for its entries: one spelling per entry list |
| Archive.Sink.constructor | packer.py:15 | the output file opened with "wb" starts empty |
| Archive.Sink.Write | packer.py:34-40 | `out.write(data)` appends data to the file |
| Archive.WriteEntry | packer.py:36-40 | the four writes of one entry leave exactly `EntryWrites` in the file and report whether they all happened |
| Archive.WriteEntries | packer.py:35-40 | the entry loop appends exactly the bytes of `EmitEntries` and reports whether it finished |
| Archive.WriteArchive | packer.py:34-40 | the writing part appends exactly `Emit(files).bytes` and reports whether it finished |
| Packer.Seal | packer.py:29-30 | the encrypted data has the compressed data's length and decrypts with KEY back to it |
| Packer.CollectFiles | packer.py:16-31 | the collecting loop returns exactly the entries `Included` describes for the walked files, in walk order |
| Packer.PackResources | packer.py:10-40 | the file afterwards holds exactly `Emit` of the collected entries, and the result says whether writing finished |
| Packer.IncludedSnoc | packer.py:17-31 | one more walked file adds its entry, if any, at the end of `files` |
| Packer.IncludedAppend | packer.py:17-31 | collecting over two runs of the walk is collecting over each in turn, so walk order is kept |
| Packer.IncludedSound | packer.py:21-31 | every packed entry comes from a walked file; its name is that file's normalised path, has no backslash, is not the output file, does not end in ".py" and so is no name followed by ".py"; its data decrypts with KEY to that file's compressed contents |
| Packer.IncludedComplete | packer.py:21-31 | every walked file that is not skipped is packed under its normalised path with its compressed, encrypted contents |
| Packer.PackedArchiveReadsBack | packer.py:16-40 | a finished archive reads back as the collected entries; each entry is a non-skipped walked file whose data decrypts to its compressed contents |

## Left out

- Directory traversal (`os.walk`, `os.path.join`, `os.path.relpath`, packer.py:17-21) is filesystem I/O. The model takes the walked files as a list of (relative path, contents) pairs, in walk order across `base_dirs`.
- Reading each file (packer.py:27-28) is I/O. Its contents are part of that input.
- `zlib.compress` (packer.py:29) is a foreign library. The model takes it as a function parameter `compress` and assumes nothing about it.
- Writing to a real file: the output is the `Sink` object's byte sequence. I/O errors other than `struct.error` are not modelled.
- `name.encode("utf-8")` can raise UnicodeEncodeError on lone surrogates in a name, which `os.walk` can produce for undecodable file names. A Dafny `char` cannot be a surrogate, so this error path is not modelled.
- The `print` diagnostics (packer.py:32, packer.py:42) and the `__main__` driver (packer.py:44-46) are output only.
- The engine's archive loader, `ResourceManager::loadPackage`, is declared at `gal engine qt/ResourceManager.h`:31, but `gal engine qt/ResourceManager.cpp` does not define it, so the loader's code is not available here and is not part of this model. `Archive.DecodeArchive` is the model's own reader for the layout.
- The C++ script engine, its snapshots and the UI are not part of this model.
