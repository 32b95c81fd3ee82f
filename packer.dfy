/** `pack_resources`: walk the asset directories, skip the output archive
    and Python files, compress and encrypt each remaining file under its
    normalised relative path, and write the archive. */
module Packer {
  import opened Wrappers
  import opened Bytes
  import opened Cipher
  import opened Paths
  import opened Archive

  /** A file the directory walk found: its path relative to the working
      directory as the operating system spells it, and its contents. */
  datatype Candidate = Candidate(relPath: string, raw: seq<byte>)

  /** `xor_encrypt(compressed, KEY)`, which cannot fail with the packer's
      key; the result decrypts with the same key. */
  function Seal(compressed: seq<byte>): (r: seq<byte>)
    ensures |r| == |compressed|
    ensures XorEncrypt(r, KEY) == Some(compressed)
  {
    KeyEncryptsEverything(compressed);
    XorEncrypt(compressed, KEY).value
  }

  /** What the collecting loop appends to `files` for one walked file:
      nothing when it is skipped. */
  function Admit(c: Candidate, outputFile: string, compress: seq<byte> -> seq<byte>): seq<Entry>
  {
    var name := NormalizePath(c.relPath);
    if IsSkipped(name, outputFile) then [] else [Entry(name, Seal(compress(c.raw)))]
  }

  /** The `files` list after the walk has visited the candidates in order. */
  function Included(cs: seq<Candidate>, outputFile: string, compress: seq<byte> -> seq<byte>): seq<Entry>
  {
    if cs == [] then []
    else Included(cs[..|cs| - 1], outputFile, compress) + Admit(cs[|cs| - 1], outputFile, compress)
  }

  /** The collecting loop of `pack_resources` over the walked files. */
  method CollectFiles(cs: seq<Candidate>, outputFile: string, compress: seq<byte> -> seq<byte>)
    returns (files: seq<Entry>)
    ensures files == Included(cs, outputFile, compress)
  {
    files := [];
    var i := 0;
    while i < |cs|
      invariant 0 <= i <= |cs|
      invariant files == Included(cs[..i], outputFile, compress)
    {
      assert cs[..i + 1][..i] == cs[..i];
      var relPath := NormalizePath(cs[i].relPath);
      if IsSkipped(relPath, outputFile) {
        i := i + 1;
        continue;
      }
      var compressed := compress(cs[i].raw);
      var encrypted := Seal(compressed);
      files := files + [Entry(relPath, encrypted)];
      i := i + 1;
    }
    assert cs[..i] == cs;
  }

  /** `pack_resources` as a whole: the bytes of the freshly truncated output
      file afterwards, and whether the writing finished without a
      `struct.error`. */
  method PackResources(cs: seq<Candidate>, outputFile: string, compress: seq<byte> -> seq<byte>)
    returns (archive: seq<byte>, complete: bool)
    ensures archive == Emit(Included(cs, outputFile, compress)).bytes
    ensures complete == Emit(Included(cs, outputFile, compress)).complete
  {
    var out := new Sink();
    var files := CollectFiles(cs, outputFile, compress);
    complete := WriteArchive(out, files);
    archive := out.bytes;
  }

  // ---------------------------------------------------------------------
  // What goes into the archive.

  /** One more walked file appends what it contributes at the end. */
  lemma IncludedSnoc(cs: seq<Candidate>, c: Candidate, outputFile: string,
                     compress: seq<byte> -> seq<byte>)
    ensures Included(cs + [c], outputFile, compress)
            == Included(cs, outputFile, compress) + Admit(c, outputFile, compress)
  {
    assert (cs + [c])[..|cs|] == cs;
  }

  /** Collecting over two runs of the walk is collecting over each in turn:
      the files keep the order in which the walk found them. */
  lemma {:induction false} IncludedAppend(c1: seq<Candidate>, c2: seq<Candidate>,
                                          outputFile: string, compress: seq<byte> -> seq<byte>)
    ensures Included(c1 + c2, outputFile, compress)
            == Included(c1, outputFile, compress) + Included(c2, outputFile, compress)
    decreases |c2|
  {
    if c2 == [] {
      assert c1 + c2 == c1;
    } else {
      var init, last := c2[..|c2| - 1], c2[|c2| - 1];
      assert c2 == init + [last];
      assert c1 + c2 == (c1 + init) + [last];
      IncludedAppend(c1, init, outputFile, compress);
      IncludedSnoc(c1 + init, last, outputFile, compress);
      IncludedSnoc(init, last, outputFile, compress);
      ConcatAssoc(Included(c1, outputFile, compress), Included(init, outputFile, compress),
                  Admit(last, outputFile, compress));
    }
  }

  /** Every packed entry comes from a walked file that was not skipped: its
      name is that file's normalised path, so it holds no backslash, is not
      the output file and is not any name followed by ".py", and its data decrypts with
      KEY to the compressed contents of that file. */
  lemma {:induction false} IncludedSound(cs: seq<Candidate>, outputFile: string,
                                         compress: seq<byte> -> seq<byte>, e: Entry)
    requires e in Included(cs, outputFile, compress)
    ensures '\\' !in e.name && e.name != outputFile && !EndsWith(e.name, ".py")
    ensures forall u :: u + ".py" != e.name
    ensures exists c :: c in cs && e.name == NormalizePath(c.relPath)
                         && XorEncrypt(e.data, KEY) == Some(compress(c.raw))
  {
    var last := cs[|cs| - 1];
    if e in Included(cs[..|cs| - 1], outputFile, compress) {
      IncludedSound(cs[..|cs| - 1], outputFile, compress, e);
      var c :| c in cs[..|cs| - 1] && e.name == NormalizePath(c.relPath)
               && XorEncrypt(e.data, KEY) == Some(compress(c.raw));
      assert c in cs;
    } else {
      assert e in Admit(last, outputFile, compress);
      NormalizePathProperties(last.relPath);
      EndsWithSplit(e.name, ".py");
      assert last in cs;
    }
  }

  /** Every walked file that is not skipped is packed, under its normalised
      path and with its compressed contents encrypted by KEY. */
  lemma {:induction false} IncludedComplete(cs: seq<Candidate>, outputFile: string,
                                            compress: seq<byte> -> seq<byte>, c: Candidate)
    requires c in cs && !IsSkipped(NormalizePath(c.relPath), outputFile)
    ensures Entry(NormalizePath(c.relPath), Seal(compress(c.raw))) in Included(cs, outputFile, compress)
  {
    var init := cs[..|cs| - 1];
    if c == cs[|cs| - 1] {
    } else {
      assert cs == init + [cs[|cs| - 1]];
      assert c in init;
      IncludedComplete(init, outputFile, compress, c);
    }
  }

  /** A completed archive reads back as exactly the collected entries, in
      walk order; so every entry a reader finds is a non-skipped walked
      file whose data decrypts to its compressed contents. */
  lemma PackedArchiveReadsBack(cs: seq<Candidate>, outputFile: string, compress: seq<byte> -> seq<byte>)
    requires Emit(Included(cs, outputFile, compress)).complete
    ensures DecodeArchive(Emit(Included(cs, outputFile, compress)).bytes)
            == Some(Included(cs, outputFile, compress))
    ensures forall e :: e in Included(cs, outputFile, compress) ==>
              '\\' !in e.name && e.name != outputFile && !EndsWith(e.name, ".py") &&
              exists c :: c in cs && e.name == NormalizePath(c.relPath)
                          && XorEncrypt(e.data, KEY) == Some(compress(c.raw))
  {
    DecodeEmit(Included(cs, outputFile, compress));
    forall e | e in Included(cs, outputFile, compress)
      ensures '\\' !in e.name && e.name != outputFile && !EndsWith(e.name, ".py") &&
              exists c :: c in cs && e.name == NormalizePath(c.relPath)
                          && XorEncrypt(e.data, KEY) == Some(compress(c.raw))
    {
      IncludedSound(cs, outputFile, compress, e);
    }
  }
}
