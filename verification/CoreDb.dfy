/** Headers, database frames that may have holes, and the canonical chain behind them. */
module CoreDb {
  import opened Words

  datatype Hash32 = Hash32(word: nat)

  /** The header fields the two pruners look at. */
  datatype Header = Header(
    timestamp: uint64,
    transactionsRoot: Hash32,
    ommersHash: Hash32,
    withdrawalsRoot: Option<Hash32>,
    receiptsRoot: Hash32,
    slotNumber: Option<uint64>,
    blockAccessListHash: Option<Hash32>)

  /** What a base frame can read: the number-to-hash index and the headers, either of which may have holes. */
  datatype Frame = Frame(hashes: map<uint64, Hash32>, headers: map<Hash32, Header>)

  function GetBlockHash(frame: Frame, n: uint64): Option<Hash32> {
    if n in frame.hashes then Some(frame.hashes[n]) else None
  }

  /** A header is found through its number's hash, so a readable header has a readable hash. */
  function GetBlockHeader(frame: Frame, n: uint64): Option<Header> {
    match GetBlockHash(frame, n)
    case None => None
    case Some(hash) => if hash in frame.headers then Some(frame.headers[hash]) else None
  }

  datatype Block = Block(hash: Hash32, header: Header)

  /** Slot numbers appear with Amsterdam: once present they stay present. */
  predicate SlotAtMost(a: Option<uint64>, b: Option<uint64>) {
    a.None? || (b.Some? && a.value <= b.value)
  }

  /** The canonical chain by block number: distinct hashes, slots that never decrease. */
  ghost predicate IsChain(chain: seq<Block>) {
    && (forall i, j :: 0 <= i < j < |chain| ==> chain[i].hash != chain[j].hash)
    && (forall i, j :: 0 <= i < j < |chain| ==>
          SlotAtMost(chain[i].header.slotNumber, chain[j].header.slotNumber))
  }

  /** Whatever `frame` can read up to `head` is canonical; it need not be able to read anything. */
  ghost predicate Agrees(frame: Frame, chain: seq<Block>, head: uint64) {
    && head < |chain|
    && (forall n: uint64 :: n <= head && n in frame.hashes ==> frame.hashes[n] == chain[n].hash)
    && (forall n: uint64 :: n <= head && chain[n].hash in frame.headers ==>
          frame.headers[chain[n].hash] == chain[n].header)
  }

  /**
   * The environment of one pass or cycle: the base frame at its start and after each of its sleeps. When no
   * frame is left, it is cancelled in its sleep.
   */
  type Frames = frames: seq<Frame> | 0 < |frames| witness [Frame(map[], map[])]

  ghost predicate AllAgree(frames: Frames, chain: seq<Block>, head: uint64) {
    forall i :: 0 <= i < |frames| ==> Agrees(frames[i], chain, head)
  }

  /** Nothing becomes readable or unreadable during the sleeps. */
  ghost predicate IsFixed(frames: Frames, frame: Frame) {
    forall i :: 0 <= i < |frames| ==> frames[i] == frame
  }
}
