/**
 * `ReadBuffer`: the per-connection byte store the event loop reads into.
 * `buf` is the whole allocation (its length is the capacity) and its first
 * `size` bytes are the ones read but not yet parsed. Capacity starts at
 * `minSize`, grows by doubling up to `maxSize` when the loop asks for room,
 * and drops back to `minSize` once a burst has been consumed.
 */
module ReadBuffers {

  function Min(a: nat, b: nat): nat {
    if a <= b then a else b
  }

  /**
   * The capacity the growth loop of `_realloc_if_needed` settles on: double
   * (clamped to `maxSize`) while the free room `capacity - size` is below
   * `suggested` and `maxSize` has not been reached.
   */
  function Grown(capacity: nat, size: nat, suggested: nat, maxSize: nat): (c: nat)
    requires 0 < capacity <= maxSize
    ensures capacity <= c <= maxSize
    ensures size + suggested <= c || c == maxSize
    decreases maxSize - capacity
  {
    if size + suggested <= capacity || capacity >= maxSize then capacity
    else Grown(Min(capacity * 2, maxSize), size, suggested, maxSize)
  }

  /** Growth stops at the first doubling that makes room: when the loop grew
      the buffer and did not hit `maxSize`, half the new capacity was still
      too small. */
  lemma {:induction false} GrownIsFirstFit(capacity: nat, size: nat, suggested: nat, maxSize: nat)
    requires 0 < capacity <= maxSize
    ensures var c := Grown(capacity, size, suggested, maxSize);
      capacity < c < maxSize ==> c % 2 == 0 && c / 2 < size + suggested
    decreases maxSize - capacity
  {
    if !(size + suggested <= capacity || capacity >= maxSize) {
      var next := Min(capacity * 2, maxSize);
      GrownIsFirstFit(next, size, suggested, maxSize);
    }
  }

  class ReadBuffer {
    const minSize: nat
    const maxSize: nat
    var size: nat
    var buf: array<char>

    /** `0 < min <= max`, `min <= capacity <= max` and `size <= capacity`. */
    ghost predicate Valid()
      reads this
    {
      0 < minSize <= maxSize && minSize <= buf.Length <= maxSize && size <= buf.Length
    }

    /** `data()`: the bytes read and not yet parsed. */
    function Data(): (d: seq<char>)
      reads this, buf
      requires size <= buf.Length
      ensures |d| == size && forall i :: 0 <= i < size ==> d[i] == buf[i]
    {
      buf[..size]
    }

    /** The constructor: empty, with `minSize` bytes of room. */
    constructor (minSize: nat, maxSize: nat)
      requires 0 < minSize <= maxSize
      ensures Valid() && fresh(buf)
      ensures this.minSize == minSize && this.maxSize == maxSize
      ensures size == 0 && buf.Length == minSize
    {
      this.minSize := minSize;
      this.maxSize := maxSize;
      size := 0;
      buf := new char[minSize](_ => '\0');
    }

    /** `alloc`: room for the next read, right after the unparsed bytes. The
        room offered is everything past them, after growing if needed. */
    method Alloc(suggested: nat) returns (offset: nat, remain: nat)
      requires Valid()
      modifies this
      ensures Valid() && size == old(size) && Data() == old(Data())
      ensures buf.Length == Grown(old(buf.Length), size, suggested, maxSize)
      ensures buf == old(buf) || fresh(buf)
      ensures offset == size && remain == buf.Length - size
    {
      remain := ReallocIfNeeded(suggested);
      offset := size;
    }

    /** `occupy`: the event loop has written `n` more bytes after the unparsed ones. */
    method Occupy(n: nat)
      requires Valid() && size + n <= buf.Length
      modifies this
      ensures Valid() && buf == old(buf)
      ensures size == old(size) + n
      ensures Data() == old(buf[..size + n])
    {
      size := size + n;
    }

    /**
     * `dealloc`: drops the first `n` unparsed bytes and moves the rest to the
     * front. When fewer than `minSize / 2` bytes remain, they move into a
     * fresh buffer of `minSize` bytes instead, giving back the room a large
     * request needed.
     */
    method Dealloc(n: nat)
      requires Valid() && 0 < n <= size
      modifies this, buf
      ensures Valid()
      ensures size == old(size) - n
      ensures Data() == old(Data())[n..]
      ensures old(size) - n < minSize / 2 ==> buf.Length == minSize && fresh(buf)
      ensures old(size) - n >= minSize / 2 ==> buf == old(buf)
    {
      var rest := size - n;
      if rest < minSize / 2 {
        var shrunk := new char[minSize](_ => '\0');
        forall i | 0 <= i < rest {
          shrunk[i] := buf[i + n];
        }
        buf := shrunk;
      } else {
        ShiftDown(n, rest);
      }
      size := rest;
    }

    /** `std::copy` of the `rest` bytes after the first `n` to the front,
        in place and front to back. */
    method ShiftDown(n: nat, rest: nat)
      requires n + rest <= buf.Length
      modifies buf
      ensures buf[..rest] == old(buf[n..n + rest])
      ensures buf[rest..] == old(buf[rest..])
    {
      var i := 0;
      while i < rest
        invariant i <= rest
        invariant forall k :: 0 <= k < i ==> buf[k] == old(buf[k + n])
        invariant forall k :: i <= k < buf.Length ==> buf[k] == old(buf[k])
      {
        buf[i] := buf[i + n];
        i := i + 1;
      }
    }

    /** `_realloc_if_needed`: the doubling loop, then a resize that keeps
        the bytes already there. Returns the room after the unparsed bytes. */
    method ReallocIfNeeded(suggested: nat) returns (remain: nat)
      requires Valid()
      modifies this
      ensures Valid() && size == old(size) && Data() == old(Data())
      ensures buf.Length == Grown(old(buf.Length), size, suggested, maxSize)
      ensures buf == old(buf) || fresh(buf)
      ensures remain == buf.Length - size
    {
      var capacity := buf.Length;
      remain := capacity - size;
      while remain < suggested
        invariant buf.Length <= capacity <= maxSize && remain == capacity - size
        invariant Grown(capacity, size, suggested, maxSize) == Grown(buf.Length, size, suggested, maxSize)
        decreases maxSize - capacity
      {
        if capacity >= maxSize {
          // Already reach the max size limit.
          break;
        }
        capacity := Min(capacity * 2, maxSize);
        remain := capacity - size;
      }
      if capacity > buf.Length {
        var grown := new char[capacity](_ => '\0');
        forall i | 0 <= i < buf.Length {
          grown[i] := buf[i];
        }
        assert grown[..size] == buf[..size];
        buf := grown;
      }
    }
  }
}
