/**
  FilePersistentLog of operating-systems/twophase/persistent_log.py: one durable
  entry kept in a file with two slots and an index byte. A crash may leave a
  write half done, each of its bytes old or new.
 */
module TwoSlotLog {
  import opened Words
  import opened Wrappers

  const MAX_SIZE := 16384

  /** pickle, of which only this is used: padding is ignored, and padding alone is no entry. */
  datatype Codec<!E> = Codec(dumps: E -> seq<Byte>, loads: seq<Byte> -> Option<E>)

  ghost predicate Faithful<E(!new)>(c: Codec<E>) {
    && (forall e, n: nat :: c.loads(c.dumps(e) + Zeros(n)) == Some(e))
    && (forall n: nat {:trigger Zeros(n)} :: n > 0 ==> c.loads(Zeros(n)) == None)
  }

  // ----- Files

  /** A write at a position; beyond the end it leaves a hole of zeros. */
  function Put(d: seq<Byte>, p: nat, b: seq<Byte>): (r: seq<Byte>)
    ensures |r| == if p + |b| > |d| then p + |b| else |d|
    ensures forall i {:trigger r[i]} :: 0 <= i < |r| ==> r[i] == if p <= i < p + |b| then b[i - p] else if i < |d| then d[i] else 0
  {
    var e := if |d| < p then d + Zeros(p - |d|) else d;
    e[..p] + b + if p + |b| <= |e| then e[p + |b|..] else []
  }

  /** What a crash during that write can leave: possibly shorter, and of its bytes each old or new. */
  ghost predicate Torn(d: seq<Byte>, p: nat, b: seq<Byte>, g: seq<Byte>) {
    && |d| <= |g| <= |Put(d, p, b)|
    && forall i {:trigger g[i]} :: 0 <= i < |g| ==>
      g[i] == (if i < |d| then d[i] else 0) || (p <= i < p + |b| && g[i] == b[i - p])
  }

  /** Nothing but the bytes limits what is left: any part of the write from its beginning, or any choice of bytes where the file does not grow. */
  lemma TornAnyhow(d: seq<Byte>, p: nat, b: seq<Byte>, k: nat, kept: set<nat>)
    requires k <= |b| && p <= |d|
    ensures Torn(d, p, b, Put(d, p, b[..k])) && Torn(d, p, b, d) && Torn(d, p, b, Put(d, p, b))
    ensures p + |b| <= |d| ==> Torn(d, p, b, seq(|d|, i requires 0 <= i < |d| => if p <= i < p + |b| && i in kept then b[i - p] else d[i]))
  {
  }

  class File {
    var data: seq<Byte>
    ghost var writes: seq<(nat, seq<Byte>)>

    constructor (data: seq<Byte>)
      ensures this.data == data && writes == []
    {
      this.data, writes := data, [];
    }

    method Write(p: nat, b: seq<Byte>)
      modifies this
      ensures data == Put(old(data), p, b) && writes == old(writes) + [(p, b)]
    {
      data := Put(data, p, b);
      writes := writes + [(p, b)];
    }

    method Read(p: nat, n: nat) returns (b: seq<Byte>)
      ensures b == Piece(data, p, n)
    {
      b := if p >= |data| then [] else if p + n <= |data| then data[p..p + n] else data[p..];
    }
  }

  ghost function Piece(d: seq<Byte>, p: nat, n: nat): seq<Byte> {
    if p >= |d| then [] else if p + n <= |d| then d[p..p + n] else d[p..]
  }

  // ----- The two slots

  function Offset(index: Byte): nat { (index + 1) * MAX_SIZE }

  /** index ^= 1 */
  function Flipped(index: Byte): Byte { if index % 2 == 0 then index + 1 else index - 1 }

  /** The slots 0 and 1 take turns, and follow each other from the first multiple of their size on. */
  lemma SlotsTakeTurns(index: Byte)
    ensures Flipped(Flipped(index)) == index && Flipped(0) == 1
    ensures Offset(0) == MAX_SIZE && Offset(1) == Offset(0) + MAX_SIZE
  {
  }

  ghost function IndexOf(d: seq<Byte>): Byte { if d == [] then 0 else d[0] }

  ghost function Slot(d: seq<Byte>, index: Byte): seq<Byte> { Piece(d, Offset(index), MAX_SIZE) }

  /** What opening the file finds: an entry, no entry yet, or (None) an exception. */
  ghost function Opened<E>(d: seq<Byte>, c: Codec<E>): Option<Option<E>> {
    var raw := Slot(d, IndexOf(d));
    if raw == [] then Some(None)
    else match c.loads(raw)
      case None => None
      case Some(e) => Some(Some(e))
  }

  ghost function Padded<E>(c: Codec<E>, e: E): (b: seq<Byte>)
    requires |c.dumps(e)| <= MAX_SIZE
    ensures |b| == MAX_SIZE
  {
    c.dumps(e) + Zeros(MAX_SIZE - |c.dumps(e)|)
  }

  /** A file in which at least one write has been completed. */
  ghost predicate Complete<E>(d: seq<Byte>, c: Codec<E>) {
    d != [] && |d| >= Offset(d[0]) + MAX_SIZE && c.loads(Slot(d, d[0])).Some?
  }

  /** A file in which none has: empty, or zeros that do not reach the first slot. */
  ghost predicate Blank(d: seq<Byte>) {
    d == Zeros(|d|) && |d| <= MAX_SIZE
  }

  class FilePersistentLog<E(!new)> {
    const file: File
    const codec: Codec<E>
    var index: Byte
    var current: Option<E>

    /** null is the exception of opening a file that holds no readable entry. */
    static method Open(file: File, codec: Codec<E>) returns (l: FilePersistentLog?<E>)
      ensures l == null <==> Opened(file.data, codec).None?
      ensures l != null ==> fresh(l) && l.file == file && l.codec == codec
      ensures l != null ==> l.index == IndexOf(file.data) && Opened(file.data, codec) == Some(l.current)
    {
      var rawIndex := file.Read(0, 1);
      var index: Byte := if |rawIndex| == 0 then 0 else rawIndex[0];
      var raw := file.Read(Offset(index), MAX_SIZE);
      if |raw| == 0 {
        l := new FilePersistentLog(file, codec, index, None);
      } else {
        var e := codec.loads(raw);
        if e.None? {
          return null;
        }
        l := new FilePersistentLog(file, codec, index, e);
      }
    }

    constructor (file: File, codec: Codec<E>, index: Byte, current: Option<E>)
      ensures this.file == file && this.codec == codec && this.index == index && this.current == current
    {
      this.file, this.codec, this.index, this.current := file, codec, index, current;
    }

    /** False is the exception for an entry that is too large: by then the memory has moved on, the file has not. */
    method SetLastEntry(e: E) returns (ok: bool)
      modifies this, file
      ensures current == Some(e) && index == Flipped(old(index))
      ensures ok <==> |codec.dumps(e)| <= MAX_SIZE
      ensures !ok ==> file.data == old(file.data) && file.writes == old(file.writes)
      ensures ok ==> file.data == Written(old(file.data), index, codec, e)
      ensures ok ==> file.writes == old(file.writes) + [(Offset(index), Padded(codec, e)), (0, [index])]
    {
      current := Some(e);
      index := Flipped(index);
      ok := WriteRawValue(e);
      if ok {
        file.Write(0, [index]);
      }
    }

    method WriteRawValue(e: E) returns (ok: bool)
      modifies file
      ensures ok <==> |codec.dumps(e)| <= MAX_SIZE
      ensures !ok ==> file.data == old(file.data) && file.writes == old(file.writes)
      ensures ok ==> file.data == Put(old(file.data), Offset(index), Padded(codec, e))
      ensures ok ==> file.writes == old(file.writes) + [(Offset(index), Padded(codec, e))]
    {
      var raw := codec.dumps(e);
      if |raw| > MAX_SIZE {
        return false;
      }
      file.Write(Offset(index), raw + Zeros(MAX_SIZE - |raw|));
      ok := true;
    }
  }

  /** The file after both writes of set_last_entry. */
  ghost function Written<E>(d: seq<Byte>, index: Byte, c: Codec<E>, e: E): seq<Byte>
    requires |c.dumps(e)| <= MAX_SIZE
  {
    Put(Put(d, Offset(index), Padded(c, e)), 0, [index])
  }

  /** What a crash anywhere in set_last_entry can leave: slot half written, or written and the index perhaps too. */
  ghost predicate CrashLeaves<E>(d: seq<Byte>, index: Byte, c: Codec<E>, e: E, g: seq<Byte>)
    requires |c.dumps(e)| <= MAX_SIZE
  {
    var slot := Put(d, Offset(index), Padded(c, e));
    Torn(d, Offset(index), Padded(c, e), g) || Torn(slot, 0, [index], g)
  }

  lemma SlotsApart(index: Byte)
    ensures Offset(Flipped(index)) + MAX_SIZE <= Offset(index) || Offset(index) + MAX_SIZE <= Offset(Flipped(index))
    ensures Offset(index) >= MAX_SIZE
  {
  }

  /** Equal bytes in the slot, equal slot. */
  lemma SameSlot(d: seq<Byte>, g: seq<Byte>, index: Byte)
    requires |d| >= Offset(index) + MAX_SIZE && |g| >= |d|
    requires forall i :: Offset(index) <= i < Offset(index) + MAX_SIZE ==> g[i] == d[i]
    ensures Slot(g, index) == Slot(d, index)
  {
  }

  /** A completed write is what is found on opening, whatever the file held before. */
  lemma WriteCompletes<E(!new)>(d: seq<Byte>, index: Byte, c: Codec<E>, e: E)
    requires Faithful(c) && |c.dumps(e)| <= MAX_SIZE
    ensures var g := Written(d, index, c, e);
      Complete(g, c) && IndexOf(g) == index && Opened(g, c) == Some(Some(e))
  {
    var slot := Put(d, Offset(index), Padded(c, e));
    var g := Put(slot, 0, [index]);
    SlotsApart(index);
    assert g[0] == index;
    assert Slot(g, index) == Padded(c, e);
  }

  /** A torn slot write does not touch the slot in use. */
  lemma TornSlotKeeps<E>(d: seq<Byte>, c: Codec<E>, b: seq<Byte>, g: seq<Byte>)
    requires Complete(d, c) && |b| == MAX_SIZE && Torn(d, Offset(Flipped(d[0])), b, g)
    ensures Complete(g, c) && IndexOf(g) == d[0] && Opened(g, c) == Opened(d, c)
  {
    SlotsApart(d[0]);
    SlotsApart(Flipped(d[0]));
    assert g[0] == d[0];
    SameSlot(d, g, d[0]);
  }

  /**
    The log is atomic: once a write has been completed, a crash anywhere in
    set_last_entry leaves the old entry or the new one, and the log can be used on.
   */
  lemma CrashIsAtomic<E(!new)>(d: seq<Byte>, c: Codec<E>, e: E, g: seq<Byte>)
    requires Faithful(c) && Complete(d, c) && |c.dumps(e)| <= MAX_SIZE
    requires CrashLeaves(d, Flipped(d[0]), c, e, g)
    ensures Complete(g, c) && (Opened(g, c) == Opened(d, c) || Opened(g, c) == Some(Some(e)))
  {
    var index := Flipped(d[0]);
    var b := Padded(c, e);
    var slot := Put(d, Offset(index), b);
    if Torn(slot, 0, [index], g) {
      TornIndex(d, index, b, g);
    }
    if g == Written(d, index, c, e) {
      WriteCompletes(d, index, c, e);
    } else {
      TornSlotKeeps(d, c, b, g);
    }
  }

  /** The index is one byte, so its write happens or does not. */
  lemma TornIndex(d: seq<Byte>, index: Byte, b: seq<Byte>, g: seq<Byte>)
    requires d != [] && Torn(Put(d, Offset(index), b), 0, [index], g)
    ensures g == Put(Put(d, Offset(index), b), 0, [index]) || Torn(d, Offset(index), b, g)
  {
    var slot := Put(d, Offset(index), b);
    assert |g| == |slot| && (g[0] == slot[0] || g[0] == index);
    if g[0] == index {
      assert g == Put(slot, 0, [index]);
    } else {
      assert g == slot;
    }
  }

  /** A life of the log: every image is what a completed or a crashed set_last_entry made of the one before. */
  ghost predicate Life<E>(images: seq<seq<Byte>>, entries: seq<E>, c: Codec<E>) {
    && |images| == |entries| + 1
    && forall i {:trigger Attempted(images, entries, c, i)} :: 0 <= i < |entries| ==> Attempted(images, entries, c, i)
  }

  ghost predicate Attempted<E>(images: seq<seq<Byte>>, entries: seq<E>, c: Codec<E>, i: nat)
    requires i < |entries| && i + 1 < |images|
  {
    && |c.dumps(entries[i])| <= MAX_SIZE
    && var index := Flipped(IndexOf(images[i]));
    images[i + 1] == Written(images[i], index, c, entries[i]) || CrashLeaves(images[i], index, c, entries[i], images[i + 1])
  }

  /** Over a whole life the file stays readable, and each attempt changes what it holds to the new entry or not at all. */
  lemma {:induction false} LifeIsAtomic<E(!new)>(images: seq<seq<Byte>>, entries: seq<E>, c: Codec<E>, i: nat)
    requires Faithful(c) && Life(images, entries, c) && Complete(images[0], c) && i < |images|
    ensures Complete(images[i], c)
    ensures i > 0 ==> Opened(images[i], c) == Opened(images[i - 1], c) || Opened(images[i], c) == Some(Some(entries[i - 1]))
  {
    if i > 0 {
      LifeIsAtomic(images, entries, c, i - 1);
      assert Attempted(images, entries, c, i - 1);
      var d, e := images[i - 1], entries[i - 1];
      hide Life, Complete, Opened, Torn, Written;
      if images[i] == Written(d, Flipped(IndexOf(d)), c, e) {
        WriteCompletes(d, Flipped(IndexOf(d)), c, e);
      } else {
        CompleteIndex(d, c);
        CrashIsAtomic(d, c, e, images[i]);
      }
    }
  }

  lemma CompleteIndex<E>(d: seq<Byte>, c: Codec<E>)
    requires Complete(d, c)
    ensures d != [] && IndexOf(d) == d[0]
  {
  }

  /**
    The very first write is the exception: until its index byte is there, the
    file opens if and only if it does not reach into the slot that byte 0 names.
   */
  lemma FirstWriteCrash<E(!new)>(d: seq<Byte>, c: Codec<E>, e: E, g: seq<Byte>)
    requires Faithful(c) && Blank(d) && |c.dumps(e)| <= MAX_SIZE
    requires Torn(d, Offset(1), Padded(c, e), g)
    ensures |g| <= MAX_SIZE ==> Opened(g, c) == Some(None) && Blank(g)
    ensures |g| > MAX_SIZE ==> Opened(g, c) == None
  {
    assert IndexOf(g) == 0;
    if |g| > MAX_SIZE {
      var raw := Slot(g, 0);
      assert raw == Zeros(|raw|);
    } else {
      assert g == Zeros(|g|);
    }
  }

  /** That happens: a crash that has got as far as lengthening an empty file leaves one that cannot be opened. */
  lemma FirstWriteCanBeLost<E(!new)>(c: Codec<E>, e: E)
    requires Faithful(c) && |c.dumps(e)| <= MAX_SIZE
    ensures var g := Zeros(MAX_SIZE + 1);
      Blank([]) && Torn([], Offset(1), Padded(c, e), g) && Opened(g, c) == None
  {
    assert Zeros(0) == [];
    FirstWriteCrash([], c, e, Zeros(MAX_SIZE + 1));
  }
}
