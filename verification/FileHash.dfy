/**
 The chunked file hasher: a do-while loop over reads of whatever size the system returns.
 */
module FileHash {
  import opened Words
  import opened CrcSpec
  import opened Checksum

  datatype Algorithm = Crc32Kal | Crc32C | Unknown

  const MAX_CHUNK: nat := 16 * 1024 * 1024

  /** An open file.  A read returns any number of the bytes that follow, possibly none after a failure. */
  class File {
    const content: seq<byte>
    var position: nat
    var failed: bool

    constructor (content: seq<byte>)
      ensures this.content == content && position == 0 && !failed
    {
      this.content := content;
      position := 0;
      failed := false;
    }

    /** `ReadFile`: fills a prefix of the buffer and advances; it reads nothing only at the end or on failure. */
    method Read(buffer: array<byte>, want: nat) returns (n: nat)
      requires want <= buffer.Length && position <= |content|
      modifies this`position, this`failed, buffer
      ensures n <= want && position == old(position) + n <= |content|
      ensures buffer[..n] == content[old(position)..position]
      ensures n == 0 && want > 0 && old(position) < |content| ==> failed
      ensures old(failed) ==> failed
    {
      var count: nat :| count <= want && position + count <= |content|;
      n := count;
      forall i | 0 <= i < n {
        buffer[i] := content[position + i];
      }
      position := position + n;
      failed := failed || n == 0;
    }
  }

  function Polynomial(algorithm: Algorithm): word {
    if algorithm == Crc32Kal then IEEE else CASTAGNOLI
  }

  /** Progress reports never decrease. */
  ghost predicate NeverDecreases(reports: seq<nat>) {
    forall i, j | 0 <= i < j < |reports| :: reports[i] <= reports[j]
  }

  /** Reading stops only at `size` bytes, or at the end of the file, or after a failure. */
  ghost predicate Stopped(size: nat, content: seq<byte>, total: nat, failed: bool) {
    total >= size || total == |content| || failed
  }

  /** The callback sees totals that never decrease and that end at the number of bytes read. */
  ghost predicate Reported(callback: bool, reports: seq<nat>, total: nat, more: bool) {
    && NeverDecreases(reports)
    && (forall i | 0 <= i < |reports| :: reports[i] <= total)
    && (!callback ==> reports == [])
    && (callback && !more ==> reports != [])
    && (reports != [] ==> reports[|reports| - 1] == total)
  }

  lemma NothingReported(callback: bool)
    ensures Reported(callback, [], 0, true)
  {
  }

  lemma ReportOne(callback: bool, reports: seq<nat>, total: nat, total': nat)
    requires total <= total' && Reported(callback, reports, total, true)
    ensures Reported(callback, if callback then reports + [total'] else reports, total', false)
    ensures Reported(callback, if callback then reports + [total'] else reports, total', true)
  {
  }

  /** What a completed run promises about the hash, the reports and the bytes consumed. */
  ghost predicate Hashed(algorithm: Algorithm, size: nat, callback: bool, hash: word, reports: seq<nat>,
                         content: seq<byte>, total: nat, failed: bool)
  {
    && total <= |content|
    && hash == Crc(Polynomial(algorithm), 0, content[..total])
    && Stopped(size, content, total, failed)
    && Reported(callback, reports, total, false)
  }

  /** However the reads were split, an unchanged file that reads without failure has its one-shot CRC. */
  lemma HashIsOneShot(algorithm: Algorithm, callback: bool, hash: word, reports: seq<nat>,
                      content: seq<byte>, total: nat)
    requires Hashed(algorithm, |content|, callback, hash, reports, content, total, false)
    ensures algorithm == Crc32C ==> hash == Crc(CASTAGNOLI, 0, content)
    ensures algorithm == Crc32Kal ==> hash == Crc(IEEE, 0, content)
  {
    assert content[..total] == content;
  }

  /** Hashes one chunk with the algorithm's own routine. */
  method HashChunk(algorithm: Algorithm, hash: word, buffer: array<byte>, n: nat,
                   engine: Engine, hardwareAvailable: bool, x64: bool, address: nat) returns (r: word)
    requires engine.Shape() && engine.Ready() && n <= buffer.Length
    modifies engine, engine.table, engine.shortShifts, engine.longShifts
    ensures engine.Ready()
    ensures r == Crc(Polynomial(algorithm), hash, old(buffer[..n]))
  {
    if algorithm == Crc32Kal {
      r := Crc32(hash, buffer, n);
    } else {
      r := engine.Crc32c(hardwareAvailable, x64, hash, address, buffer, n);
    }
  }

  /**
   `SK_File_GetHash_32`.  `size` is the size asked for before the file was opened; `file` is null when it
   cannot be opened; `reports` lists the totals passed to the progress callback, if there is one.
   */
  method GetHash32(algorithm: Algorithm, size: nat, file: File?, callback: bool,
                   engine: Engine, hardwareAvailable: bool, x64: bool, address: nat)
    returns (hash: word, reports: seq<nat>)
    requires engine.Shape() && engine.Ready()
    requires file != null ==> file.position == 0 && !file.failed
    modifies file, engine, engine.table, engine.shortShifts, engine.longShifts
    ensures engine.Ready()
    ensures size == 0 || algorithm == Unknown || file == null ==> hash == 0 && reports == []
    ensures size > 0 && algorithm != Unknown && file != null ==>
              Hashed(algorithm, size, callback, hash, reports, file.content, file.position, file.failed)
    ensures size > 0 && algorithm == Crc32C && file != null ==>
              hash == Crc(CASTAGNOLI, 0, file.content[..file.position])
    ensures size > 0 && algorithm == Crc32Kal && file != null ==>
              hash == Crc(IEEE, 0, file.content[..file.position])
  {
    hide Crc, Engine.Ready, Reported;
    hash, reports := 0, [];
    NothingReported(callback);
    if size == 0 || algorithm == Unknown || file == null {
      return;
    }
    var readSize := if size <= 0xffff_ffff && size < MAX_CHUNK then size else MAX_CHUNK;
    var buffer := new byte[readSize](i => 0);
    var total: nat := 0;
    var more := true;
    EmptyCrc(0);
    while more
      invariant engine.Ready()
      invariant total == file.position && total <= |file.content|
      invariant hash == Crc(Polynomial(algorithm), 0, file.content[..total])
      invariant Reported(callback, reports, total, more)
      invariant more || Reported(callback, reports, total, false)
      invariant if more then total < size else Stopped(size, file.content, total, file.failed)
      decreases if more then size - total + 1 else 0
    {
      var n := file.Read(buffer, readSize);
      CrcChains(Polynomial(algorithm), 0, file.content[..total], file.content[total..total + n]);
      assert file.content[..total] + file.content[total..total + n] == file.content[..total + n];
      hash := HashChunk(algorithm, hash, buffer, n, engine, hardwareAvailable, x64, address);
      ReportOne(callback, reports, total, total + n);
      total := total + n;
      if callback {
        reports := reports + [total];
      }
      more := total < size && n > 0;
    }
  }
}
