/**
 * CxMemFile: a growable in-memory file. A byte buffer with a current position,
 * a logical size and a capacity ("edge"); the capacity grows in 64 KiB blocks.
 */
module MemFile {
  import opened Common

  /** stdio's EOF, returned by Getc. */
  const EOF: int := -1

  /** The `origin` values of Seek (stdio's SEEK_SET, SEEK_CUR, SEEK_END). */
  const SEEK_SET: int := 0
  const SEEK_CUR: int := 1
  const SEEK_END: int := 2

  /** The byte value of '\n', where Gets stops. */
  const NEWLINE: byte := 10

  /** The capacity alloc picks for a request of n bytes: the next 64 KiB multiple above n. */
  function GrownEdge(n: nat): (r: nat)
    ensures r % 65536 == 0
    ensures n < r <= n + 65536
  {
    (n / 65536 + 1) * 65536
  }

  /**
   * `now` is `before` with `data` written at offset `at`: the written bytes are
   * there, and every other byte of `before` is unchanged.
   */
  ghost predicate Overwrites(now: seq<byte>, before: seq<byte>, at: nat, data: seq<byte>) {
    && (|data| > 0 ==> at + |data| <= |now|)
    && |before| <= |now|
    && (forall i :: 0 <= i < |data| ==> now[at + i] == data[i])
    && (forall i :: 0 <= i < |before| && !(at <= i < at + |data|) ==> now[i] == before[i])
  }

  /** Two writes at consecutive offsets amount to one write of both pieces. */
  lemma OverwritesThen(a: seq<byte>, b: seq<byte>, c: seq<byte>, at: nat, d1: seq<byte>, d2: seq<byte>)
    requires Overwrites(b, a, at, d1)
    requires Overwrites(c, b, at + |d1|, d2)
    ensures Overwrites(c, a, at, d1 + d2)
  {
    var d := d1 + d2;
    forall i | 0 <= i < |d|
      ensures c[at + i] == d[i]
    {
      if i < |d1| {
        assert c[at + i] == b[at + i];
      } else {
        assert c[at + |d1| + (i - |d1|)] == d2[i - |d1|];
      }
    }
  }

  /**
   * The line Gets reads out of the unread bytes `data` with room for `room`
   * characters, continuing from index i: where it stops, and whether it ran into
   * the end of the file before it was done (in which case it returns null).
   */
  function LineFrom(data: seq<byte>, i: nat, room: int): (r: (nat, bool))
    requires i <= |data|
    ensures i <= r.0 <= |data|
    ensures r.0 > i ==> r.0 <= room
    ensures r.1 ==> r.0 == |data| && room > |data|
    ensures r.1 ==> forall j :: i <= j < |data| ==> data[j] != NEWLINE
    ensures !r.1 && r.0 > i ==> r.0 == room || data[r.0 - 1] == NEWLINE
    ensures forall j :: i <= j < r.0 - 1 ==> data[j] != NEWLINE
    decreases |data| - i
  {
    if i >= room then (i, false)
    else if i == |data| then (i, true)
    else if data[i] == NEWLINE then (i + 1, false)
    else LineFrom(data, i + 1, room)
  }

  /** The whole line from the start of `data`. */
  function Line(data: seq<byte>, room: int): (r: (nat, bool))
    ensures r.0 <= |data|
    ensures r.0 > 0 ==> r.0 <= room
    ensures r.1 ==> r.0 == |data| && room > |data| && forall j :: 0 <= j < |data| ==> data[j] != NEWLINE
    ensures !r.1 && r.0 > 0 ==> r.0 == room || data[r.0 - 1] == NEWLINE
    ensures forall j :: 0 <= j < r.0 - 1 ==> data[j] != NEWLINE
  {
    LineFrom(data, 0, room)
  }

  /** A newline within the room ends the line just after it. */
  lemma {:induction false} LineFromNewline(data: seq<byte>, i: nat, room: int, j: nat)
    requires i <= j < |data| && j < room && data[j] == NEWLINE
    requires forall t :: i <= t < j ==> data[t] != NEWLINE
    ensures LineFrom(data, i, room) == (j + 1, false)
    decreases j - i
  {
    if i < j {
      LineFromNewline(data, i + 1, room, j);
    }
  }

  /** Without a newline before the last place, a full room is consumed and the line is kept. */
  lemma {:induction false} LineFromFull(data: seq<byte>, i: nat, room: nat)
    requires i <= room <= |data|
    requires forall t :: i <= t < room - 1 ==> data[t] != NEWLINE
    ensures LineFrom(data, i, room) == (room, false)
    decreases room - i
  {
    if i < room && data[i] != NEWLINE {
      LineFromFull(data, i + 1, room);
    }
  }

  /** Running out of data before the room and before any newline is the end-of-file case. */
  lemma {:induction false} LineFromEof(data: seq<byte>, i: nat, room: int)
    requires i <= |data| < room
    requires forall t :: i <= t < |data| ==> data[t] != NEWLINE
    ensures LineFrom(data, i, room) == (|data|, true)
    decreases |data| - i
  {
    if i < |data| {
      LineFromEof(data, i + 1, room);
    }
  }

  /**
   * The three ways a line ends, from the start of the data: after the first
   * newline, at a full room, or at the end of the file.
   */
  lemma LineCases(data: seq<byte>, room: int)
    ensures forall j ::
              (0 <= j < |data| && j < room && data[j] == NEWLINE && forall t :: 0 <= t < j ==> data[t] != NEWLINE)
              ==> Line(data, room) == (j + 1, false)
    ensures 0 <= room <= |data| && (forall t :: 0 <= t < room - 1 ==> data[t] != NEWLINE) ==>
              Line(data, room) == (room, false)
    ensures |data| < room && (forall t :: 0 <= t < |data| ==> data[t] != NEWLINE) ==> Line(data, room) == (|data|, true)
  {
    forall j | 0 <= j < |data| && j < room && data[j] == NEWLINE && (forall t :: 0 <= t < j ==> data[t] != NEWLINE)
      ensures Line(data, room) == (j + 1, false)
    {
      LineFromNewline(data, 0, room, j);
    }
    if 0 <= room <= |data| && (forall t :: 0 <= t < room - 1 ==> data[t] != NEWLINE) {
      LineFromFull(data, 0, room);
    }
    if |data| < room && (forall t :: 0 <= t < |data| ==> data[t] != NEWLINE) {
      LineFromEof(data, 0, room);
    }
  }

  /** memcpy: `len` bytes from src[from..] to dst[to..]; nothing else in dst changes. */
  method CopyBytes(src: array<byte>, from: nat, dst: array<byte>, to: nat, len: nat)
    requires src != dst
    requires from + len <= src.Length && to + len <= dst.Length
    modifies dst
    ensures forall j :: to <= j < to + len ==> dst[j] == src[from + (j - to)]
    ensures forall j :: 0 <= j < dst.Length && !(to <= j < to + len) ==> dst[j] == old(dst[j])
  {
    var i := 0;
    while i < len
      invariant 0 <= i <= len
      invariant forall j :: to <= j < to + i ==> dst[j] == src[from + (j - to)]
      invariant forall j :: 0 <= j < dst.Length && !(to <= j < to + i) ==> dst[j] == old(dst[j])
    {
      dst[to + i] := src[from + i];
      i := i + 1;
    }
  }

  class CxMemFile {
    var buffer: array?<byte>   // m_pBuffer
    var size: nat              // m_Size: bytes of the file
    var freeOnClose: bool      // m_bFreeOnClose: the buffer is owned
    var position: nat          // m_Position, never negative
    var edge: nat              // m_Edge: usable bytes of the buffer
    var eof: bool              // m_bEOF

    /** The object invariant: the file fits the capacity, and the capacity fits the buffer. */
    ghost predicate Valid()
      reads this
    {
      size <= edge && (buffer != null ==> edge <= buffer.Length)
    }

    /** The usable bytes of the buffer. */
    ghost function Image(): seq<byte>
      reads this, buffer
      requires Valid() && buffer != null
    {
      buffer[..edge]
    }

    /** The bytes from the position to the end of the file (empty past the end). */
    ghost function Unread(): seq<byte>
      reads this, buffer
      requires Valid() && buffer != null
    {
      if position < size then buffer[position..size] else []
    }

    /** What a read from the position would see: nothing without a buffer. */
    ghost function Pending(): seq<byte>
      reads this, buffer
      requires Valid()
    {
      if buffer == null then [] else Unread()
    }

    /** CxMemFile(pBuffer, size): wrap a caller buffer of `sz` bytes, or start with none. */
    constructor (pBuffer: array?<byte>, sz: nat)
      requires pBuffer != null ==> sz <= pBuffer.Length
      ensures Valid()
      ensures buffer == pBuffer && position == 0 && size == sz && edge == sz
      ensures freeOnClose == (pBuffer == null) && !eof
    {
      buffer := pBuffer;
      position := 0;
      size, edge := sz, sz;
      freeOnClose := pBuffer == null;
      eof := false;
    }

    /** close(): release an owned buffer; a caller's buffer stays attached. */
    method Close() returns (ok: bool)
      requires Valid()
      modifies this
      ensures Valid() && ok
      ensures old(buffer) != null && old(freeOnClose) ==> buffer == null && size == 0
      ensures !(old(buffer) != null && old(freeOnClose)) ==> buffer == old(buffer) && size == old(size)
      ensures position == old(position) && edge == old(edge) && freeOnClose == old(freeOnClose) && eof == old(eof)
    {
      if buffer != null && freeOnClose {
        buffer := null;
        size := 0;
      }
      return true;
    }

    /** open(): start an empty owned file, unless a buffer is already attached. */
    method Open() returns (ok: bool)
      requires Valid()
      modifies this
      ensures Valid()
      ensures ok == (old(buffer) == null)
      ensures !ok ==> unchanged(this)
      ensures ok ==> fresh(buffer) && position == 0 && size == 0 && edge == 0 && freeOnClose
      ensures ok ==> eof == old(eof)
    {
      if buffer != null {
        return false;
      }
      position, size, edge := 0, 0, 0;
      buffer := new byte[1];
      freeOnClose := true;
      return true;
    }

    /** getBuffer(bDetachBuffer): the buffer; detaching hands its ownership to the caller. */
    method GetBuffer(detach: bool) returns (b: array?<byte>)
      modifies this
      ensures b == buffer && buffer == old(buffer)
      ensures freeOnClose == (old(freeOnClose) && !detach)
      ensures size == old(size) && position == old(position) && edge == old(edge) && eof == old(eof)
    {
      if detach {
        freeOnClose := false;
      }
      b := buffer;
    }

    /**
     * alloc(nBytes): grow the capacity to the next 64 KiB multiple above nBytes,
     * keeping the bytes already there (realloc); the buffer is owned from then on.
     * Bytes realloc leaves indeterminate are zero here.
     */
    method Alloc(n: nat) returns (ok: bool)
      requires Valid()
      modifies this
      ensures Valid()
      ensures n <= old(edge) ==> unchanged(this) && ok == (buffer != null)
      ensures n > old(edge) ==> ok && fresh(buffer) && edge == GrownEdge(n) && edge == buffer.Length && freeOnClose
      ensures n > old(edge) && old(buffer) != null ==>
                forall i :: 0 <= i < old(buffer.Length) && i < edge ==> buffer[i] == old(buffer[i])
      ensures n > old(edge) ==> edge > n
      ensures size == old(size) && position == old(position) && eof == old(eof)
    {
      if n > edge {
        var newSize := GrownEdge(n);
        var grown := new byte[newSize];
        var current := buffer;
        if current != null {
          var keep := if current.Length < newSize then current.Length else newSize;
          CopyBytes(current, 0, grown, 0, keep);
          assert forall j :: 0 <= j < keep ==> grown[j] == grown[0..keep][j];
        }
        buffer := grown;
        freeOnClose := true;
        edge := newSize;
      }
      return buffer != null;
    }

    /** The copying half of read: move up to n unread bytes into dest, setting eof when fewer remain. */
    method ReadBytes(dest: array<byte>, n: nat) returns (got: nat)
      requires Valid() && buffer != null && position < size && 0 < n <= dest.Length && dest != buffer
      modifies this, dest
      ensures Valid() && buffer == old(buffer) && size == old(size) && edge == old(edge)
      ensures freeOnClose == old(freeOnClose) && unchanged(buffer)
      ensures var truncated := old(position) + n > size;
              && got == (if truncated then size - old(position) else n)
              && position == old(position) + got
              && eof == (old(eof) || truncated)
              && dest[..got] == old(Unread())[..got]
              && dest[got..] == old(dest[got..])
    {
      if position + n > size {
        eof := true;
        got := size - position;
      } else {
        got := n;
      }
      CopyBytes(buffer, position, dest, 0, got);
      assert dest[..got] == old(Unread())[..got];
      assert dest[got..] == old(dest[got..]);
      position := position + got;
    }

    /**
     * read(buffer, size, count): copy up to size*count bytes from the position into
     * `dest`, stopping at the end of the file, and answer the number of whole items.
     */
    method Read(dest: array?<byte>, itemSize: nat, count: nat) returns (r: nat)
      requires Valid()
      requires dest != null ==> itemSize * count <= dest.Length && dest != buffer
      modifies this, dest
      ensures Valid() && buffer == old(buffer) && size == old(size) && edge == old(edge)
      ensures freeOnClose == old(freeOnClose)
      ensures dest == null || old(buffer) == null ==> r == 0 && unchanged(this) && (dest != null ==> unchanged(dest))
      ensures dest != null && buffer != null && old(position) >= size ==>
                r == 0 && eof && position == old(position) && unchanged(dest)
      ensures dest != null && buffer != null && old(position) < size && itemSize * count == 0 ==>
                r == 0 && unchanged(this) && unchanged(dest)
      ensures dest != null && buffer != null && old(position) < size && itemSize * count > 0 ==>
                var n := itemSize * count;
                var truncated := old(position) + n > size;
                var got := if truncated then size - old(position) else n;
                && position == old(position) + got
                && eof == (old(eof) || truncated)
                && dest[..got] == old(Unread())[..got]
                && dest[got..] == old(dest[got..])
                && r == got / itemSize
      ensures buffer != null ==> unchanged(buffer)
    {
      if dest == null {
        return 0;
      }
      if buffer == null {
        return 0;
      }
      if position >= size {
        eof := true;
        return 0;
      }
      var n := itemSize * count;
      if n == 0 {
        return 0;
      }
      var got := ReadBytes(dest, n);
      return got / itemSize;
    }

    /** The copying half of write: place n bytes of src at the position, growing the buffer when they do not fit. */
    method WriteBytes(src: array<byte>, n: nat)
      requires Valid() && buffer != null && 0 < n <= src.Length && src != buffer && !eof
      modifies this, buffer
      ensures Valid() && !eof && buffer != null
      ensures Overwrites(Image(), old(Image()), old(position), src[..n])
      ensures position == old(position) + n
      ensures size == (if position > old(size) then position else old(size))
      ensures old(position) + n > old(edge) ==> fresh(buffer) && edge == GrownEdge(old(position) + n) && freeOnClose
      ensures old(position) + n <= old(edge) ==> buffer == old(buffer) && edge == old(edge) && freeOnClose == old(freeOnClose)
    {
      ghost var before := Image();
      if position + n > edge {
        var grown := Alloc(position + n);
      }
      ghost var grownImage := Image();
      CopyBytes(src, 0, buffer, position, n);
      forall j | 0 <= j < n
        ensures buffer[position + j] == src[..n][j]
      {
        assert buffer[position + j] == src[0 + (position + j - position)];
      }
      position := position + n;
      if position > size {
        size := position;
      }
    }

    /**
     * write(buffer, size, count): copy size*count bytes from `src` to the position,
     * growing the capacity first when they do not fit, and answer `count`.
     */
    method Write(src: array?<byte>, itemSize: nat, count: nat) returns (r: nat)
      requires Valid()
      requires src != null ==> itemSize * count <= src.Length && src != buffer
      modifies this, buffer
      ensures Valid() && !eof
      ensures old(buffer) == null || src == null || itemSize * count == 0 ==>
                r == 0 && buffer == old(buffer) && size == old(size) && position == old(position) && edge == old(edge)
                && freeOnClose == old(freeOnClose) && (buffer != null ==> unchanged(buffer))
      ensures old(buffer) != null && src != null && itemSize * count > 0 ==>
                var n := itemSize * count;
                && r == count
                && buffer != null
                && Overwrites(Image(), old(Image()), old(position), src[..n])
                && position == old(position) + n
                && size == (if position > old(size) then position else old(size))
                && (old(position) + n > old(edge) ==> fresh(buffer) && edge == GrownEdge(old(position) + n) && freeOnClose)
                && (old(position) + n <= old(edge) ==> buffer == old(buffer) && edge == old(edge) && freeOnClose == old(freeOnClose))
    {
      eof := false;
      if buffer == null {
        return 0;
      }
      if src == null {
        return 0;
      }
      var n := itemSize * count;
      if n == 0 {
        return 0;
      }
      WriteBytes(src, n);
      return count;
    }

    /**
     * seek(offset, origin): move the position relative to the start, the position
     * or the end; a negative result is clamped to 0, nothing clamps past the end.
     * The EOF flag is cleared on every call.
     */
    method Seek(offset: int, origin: int) returns (ok: bool)
      requires Valid()
      modifies this
      ensures Valid() && !eof
      ensures buffer == old(buffer) && size == old(size) && edge == old(edge) && freeOnClose == old(freeOnClose)
      ensures ok == (buffer != null && (origin == SEEK_SET || origin == SEEK_CUR || origin == SEEK_END))
      ensures !ok ==> position == old(position)
      ensures ok ==>
                var target := if origin == SEEK_SET then offset
                              else if origin == SEEK_CUR then old(position) + offset
                              else size + offset;
                position == if target < 0 then 0 else target
    {
      eof := false;
      if buffer == null {
        return false;
      }
      var newPos: int := position;
      if origin == SEEK_SET {
        newPos := offset;
      } else if origin == SEEK_CUR {
        newPos := newPos + offset;
      } else if origin == SEEK_END {
        newPos := size + offset;
      } else {
        return false;
      }
      if newPos < 0 {
        newPos := 0;
      }
      position := newPos;
      return true;
    }

    /** tell(): the position, or -1 without a buffer. */
    function Tell(): (r: int)
      reads this
      ensures r == -1 <==> buffer == null
      ensures r >= 0 ==> r == position
    {
      if buffer == null then -1 else position
    }

    /** size(): the logical size, or -1 without a buffer. */
    function Size(): (r: int)
      reads this
      ensures r == -1 <==> buffer == null
      ensures r >= 0 ==> r == size
    {
      if buffer == null then -1 else size
    }

    /** flush(): nothing to do; fails only without a buffer. */
    function Flush(): (r: bool)
      reads this
      ensures r <==> buffer != null
    {
      buffer != null
    }

    /** eof(): the EOF flag, and always true without a buffer. */
    function Eof(): (r: bool)
      reads this
      ensures buffer == null ==> r
      ensures buffer != null ==> r == eof
    {
      if buffer == null then true else eof
    }

    /** error(): -1 without a buffer, otherwise 1 exactly when the position is past the end. */
    function Error(): (r: int)
      reads this
      ensures buffer == null <==> r == -1
      ensures buffer != null ==> (r == 1 <==> position > size) && (r == 0 <==> position <= size)
    {
      if buffer == null then -1 else if position > size then 1 else 0
    }

    /**
     * putc(c): store c at the position (growing the capacity when the position is
     * at or past it), advance by one and extend the size to cover it.
     */
    method Putc(c: byte) returns (ok: bool)
      requires Valid()
      modifies this, buffer
      ensures Valid() && !eof
      ensures ok == (old(buffer) != null)
      ensures !ok ==> buffer == null && size == old(size) && position == old(position) && edge == old(edge)
                      && freeOnClose == old(freeOnClose)
      ensures ok ==> buffer != null
                     && Overwrites(Image(), old(Image()), old(position), [c])
                     && position == old(position) + 1
                     && size == (if position > old(size) then position else old(size))
                     && (old(position) >= old(edge) ==> fresh(buffer) && edge == GrownEdge(old(position) + 1) && freeOnClose)
                     && (old(position) < old(edge) ==> buffer == old(buffer) && edge == old(edge) && freeOnClose == old(freeOnClose))
    {
      eof := false;
      if buffer == null {
        return false;
      }
      ghost var before := Image();
      if position >= edge {
        var grown := Alloc(position + 1);
      }
      buffer[position] := c;
      position := position + 1;
      if position > size {
        size := position;
      }
      return true;
    }

    /** getc(): the byte at the position (then advance), or EOF at or past the end. */
    method Getc() returns (c: int)
      requires Valid()
      modifies this
      ensures Valid()
      ensures buffer == old(buffer) && size == old(size) && edge == old(edge) && freeOnClose == old(freeOnClose)
      ensures buffer == null || old(position) >= size ==> c == EOF && eof && position == old(position)
      ensures buffer != null && old(position) < size ==>
                c == buffer[old(position)] as int && position == old(position) + 1 && eof == old(eof)
      ensures c == EOF || 0 <= c < 256
    {
      if buffer == null || position >= size {
        eof := true;
        return EOF;
      }
      c := buffer[position] as int;
      position := position + 1;
    }

    /**
     * The loop of gets(): up to `room` calls of getc, storing each byte, until a
     * newline has been stored or getc answers EOF.
     */
    method ReadLine(str: array<byte>, room: int) returns (k: nat, hitEof: bool)
      requires Valid() && room < str.Length && str != buffer
      modifies this, str
      ensures Valid()
      ensures buffer == old(buffer) && size == old(size) && edge == old(edge) && freeOnClose == old(freeOnClose)
      ensures (k, hitEof) == Line(old(Pending()), room)
      ensures position == old(position) + k
      ensures eof == (old(eof) || hitEof)
      ensures forall j :: 0 <= j < k ==> str[j] == old(Pending())[j]
    {
      ghost var data := Pending();
      ghost var start := position;
      k := 0;
      while k < room
        invariant Valid()
        invariant buffer == old(buffer) && size == old(size) && edge == old(edge) && freeOnClose == old(freeOnClose)
        invariant 0 <= k <= |data| && position == start + k && eof == old(eof)
        invariant k <= room || k == 0
        invariant buffer == null ==> data == []
        invariant buffer != null && start < size ==> start + |data| == size
        invariant buffer != null && start >= size ==> |data| == 0
        invariant forall j :: 0 <= j < k ==> str[j] == data[j]
        invariant LineFrom(data, k, room) == LineFrom(data, 0, room)
      {
        var c := Getc();
        if c == EOF {
          assert LineFrom(data, k, room) == (k, true);
          return k, true;
        }
        assert c as byte == data[k];
        str[k] := c as byte;
        k := k + 1;
        if c == NEWLINE as int {
          assert LineFrom(data, k - 1, room) == (k, false);
          return k, false;
        }
      }
      return k, false;
    }

    /**
     * gets(string, n): read at most n-1 bytes into `str`, stopping after a newline,
     * and NUL-terminate them; answers null when the end of the file comes first.
     */
    method Gets(str: array<byte>, n: int) returns (r: array?<byte>)
      requires Valid()
      requires 1 <= str.Length && n <= str.Length && str != buffer
      modifies this, str
      ensures Valid()
      ensures buffer == old(buffer) && size == old(size) && edge == old(edge) && freeOnClose == old(freeOnClose)
      ensures var line := Line(old(Pending()), n - 1);
              && position == old(position) + line.0
              && str[..line.0] == old(Pending())[..line.0]
              && (line.1 ==> r == null && eof)
              && (!line.1 ==> r == str && str[line.0] == 0 && eof == old(eof))
    {
      ghost var data := Pending();
      var k, hitEof := ReadLine(str, n - 1);
      assert str[..k] == data[..k];
      if hitEof {
        return null;
      }
      str[k] := 0;
      return str;
    }
  }
}
