/** The buffered streams of stdio/file.c over a file whose transfers may be short. */
module FileStream {
  import opened Bytes

  /** A file without a buffer: what it holds, and where the next transfer begins. */
  datatype Plain = Plain(contents: seq<byte>, pos: nat)

  function Zeros(n: nat): seq<byte> {
    seq(n, _ => 0)
  }

  /** Bytes written over others at some place; a gap before them is filled with zeros. */
  function Overlay(c: seq<byte>, p: nat, d: seq<byte>): seq<byte> {
    if d == [] then c
    else if p >= |c| then c + Zeros(p - |c|) + d
    else if p + |d| >= |c| then c[..p] + d
    else c[..p] + d + c[p + |d|..]
  }

  function Written(f: Plain, d: seq<byte>): Plain {
    Plain(Overlay(f.contents, f.pos, d), f.pos + |d|)
  }

  /** The bytes that reading up to `n` of them gives. */
  function Next(f: Plain, n: nat): (d: seq<byte>)
    ensures |d| <= n
  {
    if f.pos >= |f.contents| then [] else if f.pos + n <= |f.contents| then f.contents[f.pos..f.pos + n] else f.contents[f.pos..]
  }

  function Advanced(f: Plain, n: nat): Plain {
    f.(pos := f.pos + n)
  }

  /** Byte by byte: what was written where it was written, the rest as before, zeros in a gap. */
  lemma OverlayAt(c: seq<byte>, p: nat, d: seq<byte>)
    requires d != []
    ensures |Overlay(c, p, d)| == if p + |d| > |c| then p + |d| else |c|
    ensures forall i :: 0 <= i < |Overlay(c, p, d)| ==>
      Overlay(c, p, d)[i] == if p <= i < p + |d| then d[i - p] else if i < |c| then c[i] else 0
  {
  }

  /** What was written is read from the same place. */
  lemma WrittenReads(f: Plain, d: seq<byte>)
    ensures var g := Written(f, d); g.pos == f.pos + |d| && Next(Plain(g.contents, f.pos), |d|) == d
  {
    if d != [] {
      OverlayAt(f.contents, f.pos, d);
      assert Overlay(f.contents, f.pos, d)[f.pos..f.pos + |d|] == d;
    }
  }

  /** The bytes at the position, up to the end. */
  lemma NextAt(f: Plain, n: nat)
    ensures |Next(f, n)| == (if f.pos >= |f.contents| then 0 else if f.pos + n > |f.contents| then |f.contents| - f.pos else n)
    ensures forall i :: 0 <= i < |Next(f, n)| ==> Next(f, n)[i] == f.contents[f.pos + i]
  {
  }

  /** Writing in two goes is writing in one. */
  lemma WrittenTwice(f: Plain, d: seq<byte>, e: seq<byte>)
    ensures Written(Written(f, d), e) == Written(f, d + e)
  {
    if d == [] {
      assert d + e == e;
    } else if e == [] {
      assert d + e == d;
    } else {
      assert Overlay(Overlay(f.contents, f.pos, d), f.pos + |d|, e) == Overlay(f.contents, f.pos, d + e);
    }
  }

  lemma WrittenNothing(f: Plain)
    ensures Written(f, []) == f
  {
  }

  /** Reading in two goes, the first of which was not cut short by the end, is reading in one. */
  lemma NextTwice(f: Plain, m: nat, n: nat)
    requires |Next(f, m)| == m
    ensures Next(f, m + n) == Next(f, m) + Next(Advanced(f, m), n)
  {
  }

  /** The bytes that were read last. */
  predicate Ahead(f: Plain, d: seq<byte>) {
    |d| <= f.pos && (d != [] ==> f.pos <= |f.contents| && d == f.contents[f.pos - |d|..f.pos])
  }

  /** What is read in two goes, and whether that is all there is of `n` bytes. */
  lemma ReadOn(f: Plain, d: seq<byte>, e: seq<byte>, n: nat)
    requires d == Next(f, |d|) && e == Next(Advanced(f, |d|), |e|) && |d| + |e| <= n
    ensures d + e == Next(f, |d + e|) && Advanced(Advanced(f, |d|), |e|) == Advanced(f, |d + e|)
    ensures e == Next(Advanced(f, |d|), n - |d|) ==> d + e == Next(f, n)
  {
    NextTwice(f, |d|, |e|);
    NextTwice(f, |d|, n - |d|);
  }

  /** At the end there is nothing more. */
  lemma NothingMore(f: Plain, m: nat, n: nat)
    requires m <= n && |Next(f, m)| < m
    ensures Next(f, n) == Next(f, m)
  {
  }

  const NEWLINE: byte := 10

  /** The place of the last newline, -1 if there is none. */
  function LastNewline(d: seq<byte>): (r: int)
    ensures -1 <= r < |d| && (r >= 0 ==> d[r] == NEWLINE) && forall i :: r < i < |d| ==> d[i] != NEWLINE
  {
    if d == [] then -1 else if d[|d| - 1] == NEWLINE then |d| - 1 else LastNewline(d[..|d| - 1])
  }

  predicate NoNewline(d: seq<byte>) {
    forall i :: 0 <= i < |d| ==> d[i] != NEWLINE
  }

  datatype Whence = Set | Current | End

  /** The file a stream is open on. A transfer takes what `limits` allows: nothing for now if that is 0, all if there is no
      limit left. */
  class RawFile {
    var file: Plain
    var limits: seq<nat>
    ghost var refused: nat   // transfers that moved nothing for now

    constructor (contents: seq<byte>, limits_: seq<nat>)
      ensures file == Plain(contents, 0) && refused == 0
    {
      file, limits, refused := Plain(contents, 0), limits_, 0;
    }

    /** Reads at least one byte unless that is the end; -1 if there is nothing for now. */
    method Read(n: nat) returns (r: int, data: seq<byte>)
      modifies this
      ensures r == -1 ==> file == old(file) && refused == old(refused) + 1 && data == []
      ensures r != -1 ==> r == |data| <= n && refused == old(refused)
      ensures r != -1 ==> data == Next(old(file), |data|) && file == Advanced(old(file), |data|)
      ensures r == 0 && n > 0 ==> old(file).pos >= |old(file).contents|
    {
      var limit := n;
      if limits != [] {
        limit, limits := if limits[0] < n then limits[0] else n, limits[1..];
      }
      if limit == 0 && n > 0 {
        refused := refused + 1;
        return -1, [];
      }
      data := Next(file, limit);
      r := |data|;
      file := Advanced(file, |data|);
    }

    /** Writes at least one byte; -1 if that is not possible for now. */
    method Write(data: seq<byte>) returns (r: int)
      requires data != []
      modifies this
      ensures r == -1 ==> file == old(file) && refused == old(refused) + 1
      ensures r != -1 ==> 1 <= r <= |data| && file == Written(old(file), data[..r]) && refused == old(refused)
    {
      var limit := |data|;
      if limits != [] {
        limit, limits := if limits[0] < |data| then limits[0] else |data|, limits[1..];
      }
      if limit == 0 {
        refused := refused + 1;
        return -1;
      }
      r := limit;
      file := Written(file, data[..limit]);
    }

    /** Goes to a place; -1 if that would be before the beginning. */
    method Seek(offset: int, whence: Whence) returns (r: int)
      modifies `file
      ensures r == Target(old(file), offset, whence)
      ensures file == if r == -1 then old(file) else old(file).(pos := r)
    {
      r := Target(file, offset, whence);
      if r != -1 {
        file := file.(pos := r);
      }
    }
  }

  function Target(f: Plain, offset: int, whence: Whence): (r: int)
    ensures r >= -1
  {
    var from := match whence case Set => 0 case Current => f.pos case End => |f.contents|;
    if from + offset < 0 then -1 else from + offset
  }

  class Stream {
    const raw: RawFile
    const bufsz: nat        // 0 if there is no buffer
    const readOnly: bool
    const writeOnly: bool
    const line: bool        // whole lines are written at once
    var buffer: seq<byte>
    var bufpos: nat
    var bufeof: nat
    var writing: bool
    var eof: bool
    var error: bool

    /** When reading, the buffer holds what is before the file's position; when writing, what is to come at it. */
    ghost predicate Valid()
      reads this, raw
    {
      && |buffer| == bufsz && bufpos <= bufsz && !(readOnly && writeOnly)
      && (!writing ==> bufpos <= bufeof <= bufsz && Ahead(raw.file, buffer[bufpos..bufeof])) && (bufsz == 0 ==> !writing)
    }

    /** The file as the stream's user sees it. */
    ghost function View(): Plain
      requires Valid()
      reads this, raw
    {
      if writing then Written(raw.file, buffer[..bufpos]) else Plain(raw.file.contents, raw.file.pos - (bufeof - bufpos))
    }

    /** What is in the buffer to be written. */
    function Held(): seq<byte>
      requires bufpos <= |buffer|
      reads `buffer, `bufpos
    {
      buffer[..bufpos]
    }

    constructor (raw_: RawFile, size: nat, readOnly_: bool, writeOnly_: bool, line_: bool)
      requires !(readOnly_ && writeOnly_)
      ensures Valid() && View() == raw_.file && raw == raw_ && bufsz == size
      ensures readOnly == readOnly_ && writeOnly == writeOnly_ && line == line_
    {
      raw, bufsz, readOnly, writeOnly, line := raw_, size, readOnly_, writeOnly_, line_;
      buffer, bufpos, bufeof := Zeros(size), 0, 0;
      writing, eof, error := false, false, false;
    }

    /** Writes until all is written or nothing more can be for now; tells how much was. */
    method FullWrite(data: seq<byte>) returns (total: nat)
      modifies raw
      ensures total <= |data| && raw.file == Written(old(raw.file), data[..total])
      ensures (total < |data|) <==> raw.refused > old(raw.refused)
      ensures raw.refused >= old(raw.refused)
    {
      total := 0;
      WrittenNothing(raw.file);
      while total < |data|
        invariant total <= |data| && raw.file == Written(old(raw.file), data[..total]) && raw.refused == old(raw.refused)
      {
        var err := raw.Write(data[total..]);
        if err < 0 {
          return;
        }
        WrittenTwice(old(raw.file), data[..total], data[total..][..err]);
        assert data[..total] + data[total..][..err] == data[..total + err];
        total := total + err;
      }
    }

    /** Empties the buffer; what the user sees stays the same, whether that succeeds or not. */
    method FlushOne() returns (ret: int)
      requires Valid()
      modifies this, raw
      ensures Valid() && View() == old(View()) && writing == old(writing) && eof == old(eof)
      ensures raw.refused >= old(raw.refused) && (ret == 0 <==> raw.refused == old(raw.refused)) && (ret == 0 || ret == -1)
      ensures !writing ==> raw.refused == old(raw.refused)
      ensures ret == 0 ==> raw.file == View() && (if writing then bufpos == 0 else bufpos == bufeof)
      ensures error == (old(error) || raw.refused > old(raw.refused))
    {
      hide Written;
      ret := 0;
      WrittenNothing(raw.file);
      if bufsz == 0 {
        return;
      }
      if writing {
        if bufpos != 0 {
          var err := FullWrite(buffer[..bufpos]);
          Front(old(raw.file), buffer, bufpos, bufpos, err);
          bufpos := bufpos - err;
          if bufpos != 0 {
            if err > 0 {
              buffer := buffer[err..err + bufpos] + buffer[bufpos..];
            }
            error := true;
            ret := -1;
          }
        }
        WrittenNothing(raw.file);
      } else if bufpos != bufeof {
        var off := raw.Seek(bufpos - bufeof, Current);
        bufpos, bufeof := bufsz, bufsz;
      }
    }

    /** Part of the buffer is written, the rest moves to the front. */
    static lemma Rest(f: Plain, buffer: seq<byte>, bufpos: nat, err: nat)
      requires err <= bufpos <= |buffer|
      ensures Written(Written(f, buffer[..bufpos][..err]), (buffer[err..bufpos] + buffer[bufpos - err..])[..bufpos - err])
           == Written(f, buffer[..bufpos])
    {
      var rest := buffer[err..bufpos];
      assert (rest + buffer[bufpos - err..])[..bufpos - err] == rest;
      WrittenTwice(f, buffer[..bufpos][..err], rest);
      assert buffer[..bufpos][..err] + rest == buffer[..bufpos];
    }

    // ----- Reading -----

    /** The first bytes of the buffer are those a file without a buffer would give. */
    static lemma InFront(f: Plain, buffer: seq<byte>, n: nat)
      requires Ahead(f, buffer) && n <= |buffer|
      ensures Ahead(f, buffer[n..]) && buffer[..n] == Next(Plain(f.contents, f.pos - |buffer|), n)
    {
      if buffer != [] {
        var from := f.pos - |buffer|;
        assert buffer == f.contents[from..f.pos];
        Slice(f.contents, from, f.pos, n);
      }
    }

    static lemma Slice(c: seq<byte>, from: nat, end: nat, n: nat)
      requires from + n <= end <= |c|
      ensures c[from..end][..n] == c[from..from + n] && c[from..end][n..] == c[from + n..end]
    {
    }

    /** Takes bytes that are in the buffer. */
    method UnbufferData(readsz: nat) returns (data: seq<byte>)
      requires Valid() && !writing
      modifies `bufpos
      ensures Valid() && data == Next(old(View()), |data|) && View() == Advanced(old(View()), |data|)
      ensures |data| == (if readsz < old(bufeof - bufpos) then readsz else old(bufeof - bufpos)) && bufpos == old(bufpos) + |data|
    {
      hide Next, Ahead, Written;
      var bytes := if readsz < bufeof - bufpos then readsz else bufeof - bufpos;
      data := buffer[bufpos..bufpos + bytes];
      InFront(raw.file, buffer[bufpos..bufeof], bytes);
      assert data == buffer[bufpos..bufeof][..bytes] && buffer[bufpos + bytes..bufeof] == buffer[bufpos..bufeof][bytes..];
      bufpos := bufpos + bytes;
    }

    static lemma AheadOf(f: Plain, d: seq<byte>, n: nat)
      requires d == Next(f, |d|)
      ensures var g := Advanced(f, |d|); Ahead(g, d) && Plain(g.contents, g.pos - |d|) == f
      ensures f.pos + |d| >= |f.contents| ==> |Next(f, n)| <= |d|
    {
    }

    /** Fills the empty buffer until so many bytes are there, or the end is, or nothing more for now. */
    method ReadBuffer(readsz: nat)
      requires Valid() && !writing && bufpos == bufeof && 0 < readsz < bufsz
      modifies this, raw
      ensures Valid() && View() == old(View()) && !writing && raw.refused >= old(raw.refused)
      ensures bufeof - bufpos >= readsz || raw.refused > old(raw.refused) || |Next(View(), readsz)| <= bufeof - bufpos
      ensures raw.refused == old(raw.refused) ==> eof == (old(eof) || bufeof - bufpos < readsz) && error == old(error)
      ensures raw.refused > old(raw.refused) ==> eof == old(eof) && error
    {
      hide Next, Written, Ahead;
      var total := 0;
      ghost var f := raw.file;
      var more := true;
      ReadNothing(f);
      while total < readsz && more
        invariant total <= bufsz == |buffer| && !writing && bufpos == old(bufpos) && bufeof == old(bufeof)
        invariant buffer[..total] == Next(f, total) && raw.file == Advanced(f, total) && raw.refused >= old(raw.refused)
        invariant |Next(f, total)| == total
        invariant !more ==> raw.refused > old(raw.refused) || f.pos + total >= |f.contents|
        invariant raw.refused == old(raw.refused) ==> eof == (old(eof) || !more) && error == old(error)
        invariant raw.refused > old(raw.refused) ==> eof == old(eof) && error && !more
        invariant !more ==> total < readsz
        decreases readsz - total, more
      {
        var err, data := raw.Read(bufsz - total);
        if err < 0 {
          error := true;
          more := false;
        } else if err == 0 {
          eof := true;
          more := false;
        } else {
          ghost var front := buffer[..total];
          buffer := buffer[..total] + data + buffer[total + err..];
          assert buffer[..total + err] == front + data;
          NextTwice(f, total, err);
          total := total + err;
        }
      }
      AheadOf(f, buffer[..total], readsz);
      if total > 0 {
        bufpos := 0;
        bufeof := total;
        assert buffer[0..total] == buffer[..total];
      } else {
        assert buffer[bufpos..bufeof] == buffer[..0] == [];
      }
    }

    /** Reads until so many bytes are there, or the end is, or nothing more for now. */
    method ReadData(readsz: nat) returns (data: seq<byte>)
      modifies raw, `eof, `error
      ensures |data| <= readsz && data == Next(old(raw.file), |data|) && raw.file == Advanced(old(raw.file), |data|)
      ensures raw.refused >= old(raw.refused)
      ensures raw.refused == old(raw.refused) ==> data == Next(old(raw.file), readsz)
      ensures raw.refused == old(raw.refused) ==> eof == (old(eof) || |data| < readsz) && error == old(error)
      ensures raw.refused > old(raw.refused) ==> eof == old(eof) && error
      ensures raw.refused > old(raw.refused) ==> |data| < readsz
    {
      data := [];
      ghost var f := raw.file;
      var more := true;
      while |data| < readsz && more
        invariant |data| <= readsz && data == Next(f, |data|) && raw.file == Advanced(f, |data|) && raw.refused >= old(raw.refused)
        invariant !more ==> raw.refused > old(raw.refused) || f.pos + |data| >= |f.contents|
        invariant raw.refused == old(raw.refused) ==> eof == (old(eof) || !more) && error == old(error)
        invariant raw.refused > old(raw.refused) ==> eof == old(eof) && error && !more
        invariant !more ==> |data| < readsz
        decreases readsz - |data|, more
      {
        var err, part := raw.Read(readsz - |data|);
        if err < 0 {
          error := true;
          more := false;
        } else if err == 0 {
          eof := true;
          more := false;
        } else {
          NextTwice(f, |data|, err);
          data := data + part;
        }
      }
    }

    /** The buffer is for reading from now on, if what is to be written can be. */
    method StartReading() returns (ok: bool)
      requires Valid() && bufsz > 0
      modifies this, raw
      ensures Valid() && View() == old(View()) && raw.refused >= old(raw.refused)
      ensures if ok then !writing && raw.refused == old(raw.refused) else raw.refused > old(raw.refused)
      ensures error == (old(error) || raw.refused > old(raw.refused)) && eof == old(eof)
      ensures !old(writing) ==> ok && raw.file == old(raw.file) && bufpos == old(bufpos) && bufeof == old(bufeof)
    {
      ok := true;
      if writing {
        var ret := FlushOne();
        if ret < 0 {
          return false;
        }
        writing := false;
        bufpos, bufeof := bufsz, bufsz;
        assert buffer[bufpos..bufeof] == [];
      }
    }

    /** Whole buffers' worth of bytes, past the empty buffer. */
    method ReadBlocks(readsz: nat) returns (data: seq<byte>)
      requires Valid() && !writing && bufpos == bufeof && readsz >= bufsz > 0
      modifies raw, `eof, `error
      ensures Valid() && raw.refused >= old(raw.refused)
      ensures |data| <= Whole(readsz, bufsz) && data == Next(old(View()), |data|) && View() == Advanced(old(View()), |data|)
      ensures raw.refused == old(raw.refused) ==> data == Next(old(View()), Whole(readsz, bufsz))
      ensures raw.refused == old(raw.refused) ==> eof == (old(eof) || |data| < Whole(readsz, bufsz)) && error == old(error)
      ensures raw.refused > old(raw.refused) ==> eof == old(eof) && error
      ensures raw.refused > old(raw.refused) ==> |data| < Whole(readsz, bufsz)
    {
      assert View() == raw.file;
      data := ReadData(Whole(readsz, bufsz));
      assert buffer[bufpos..bufeof] == [];
    }

    /** The most whole buffers in so many bytes. */
    static function Whole(n: nat, k: nat): (w: nat)
      requires k > 0
      ensures w <= n < w + k
    {
      Blocks(n, k);
      n / k * k
    }

    static lemma Blocks(n: nat, k: nat)
      requires k > 0
      ensures 0 <= n / k * k <= n < n / k * k + k
    {
    }

    /** What is left of a reading, less than the buffer holds, through the empty buffer. */
    method ReadThrough(readsz: nat) returns (data: seq<byte>)
      requires Valid() && !writing && bufpos == bufeof && 0 < readsz < bufsz
      modifies this, raw
      ensures Valid() && raw.refused >= old(raw.refused)
      ensures |data| <= readsz && data == Next(old(View()), |data|) && View() == Advanced(old(View()), |data|)
      ensures raw.refused == old(raw.refused) ==> data == Next(old(View()), readsz)
      ensures raw.refused == old(raw.refused) ==> eof == (old(eof) || |data| < readsz) && error == old(error)
      ensures raw.refused > old(raw.refused) ==> eof == old(eof) && error
    {
      ReadBuffer(readsz);
      data := UnbufferData(readsz);
    }

    /** Reads from the buffer, then past it, then through it. */
    method ReadAll(readsz: nat) returns (data: seq<byte>)
      requires Valid() && !writing && bufsz > 0 && readsz > 0
      modifies this, raw
      ensures Valid() && raw.refused >= old(raw.refused)
      ensures |data| <= readsz && data == Next(old(View()), |data|) && View() == Advanced(old(View()), |data|)
      ensures raw.refused == old(raw.refused) ==> data == Next(old(View()), readsz)
      ensures raw.refused == old(raw.refused) ==> eof == (old(eof) || |data| < readsz) && error == old(error)
      ensures raw.refused > old(raw.refused) ==> eof == old(eof) && error
      ensures readsz <= old(bufeof - bufpos) ==> raw.file == old(raw.file)
    {
      hide Valid, View, Next, Whole;
      ghost var f := View();
      data := [];
      ReadNothing(f);
      if bufpos != bufeof {
        data := UnbufferData(readsz);
      }
      if readsz - |data| >= bufsz {
        var bytes := Whole(readsz - |data|, bufsz);
        var part := ReadBlocks(readsz - |data|);
        ReadOn(f, data, part, readsz);
        if raw.refused == old(raw.refused) && |part| < bytes {
          NothingMore(Advanced(f, |data|), bytes, readsz - |data|);
        }
        data := data + part;
        if |part| < bytes {
          return;
        }
      }
      if |data| == readsz {
        return;
      }
      var last := ReadThrough(readsz - |data|);
      ReadOn(f, data, last, readsz);
      data := data + last;
    }

    /** Whole items of a size in so many bytes; none of size 0. */
    static function Items(n: nat, size: nat): (k: nat)
      ensures size > 0 ==> k * size <= n < k * size + size
      ensures size == 0 ==> k == 0
    {
      if size == 0 then 0
      else
        Blocks(n, size);
        n / size
    }

    static lemma NoItems(size: nat)
      ensures Items(0, size) == 0
    {
    }

    static lemma ReadNothing(f: Plain)
      ensures Next(f, 0) == [] && Advanced(f, 0) == f
    {
    }

    /** EBADF: the stream is not open for this. */
    method Refuse()
      requires Valid()
      modifies `error
      ensures Valid() && View() == old(View()) && error
    {
      error := true;
    }

    /** Reads without a buffer. */
    method ReadUnbuffered(readsz: nat) returns (data: seq<byte>)
      requires Valid() && bufsz == 0
      modifies this, raw
      ensures Valid() && raw.refused >= old(raw.refused)
      ensures |data| <= readsz && data == Next(old(View()), |data|) && View() == Advanced(old(View()), |data|)
      ensures raw.refused == old(raw.refused) ==> data == Next(old(View()), readsz)
      ensures raw.refused == old(raw.refused) ==> eof == (old(eof) || |data| < readsz) && error == old(error)
      ensures raw.refused > old(raw.refused) ==> eof == old(eof) && error
    {
      assert buffer[bufpos..bufeof] == [];
      data := ReadData(readsz);
    }

    /** Reads up to `nmemb` items. The bytes are those of a file without a buffer, and all there are unless some transfer
        could move nothing for now. */
    method Fread(size: nat, nmemb: nat) returns (data: seq<byte>, items: nat)
      requires Valid()
      modifies this, raw
      ensures Valid() && raw.refused >= old(raw.refused)
      ensures items == Items(|data|, size)
      ensures data == Next(old(View()), |data|) && View() == Advanced(old(View()), |data|) && |data| <= nmemb * size
      ensures raw.refused == old(raw.refused) && !(writeOnly && bufsz > 0) ==> data == Next(old(View()), nmemb * size)
      ensures nmemb * size == 0 ==> eof == old(eof) && error == old(error) && raw.file == old(raw.file)
      ensures writeOnly && bufsz > 0 && nmemb * size > 0 ==>
        data == [] && items == 0 && error && eof == old(eof) && View() == old(View()) && raw.file == old(raw.file)
      ensures !(writeOnly && bufsz > 0) ==> error == (old(error) || raw.refused > old(raw.refused))
      ensures !(writeOnly && bufsz > 0) ==> eof == (old(eof) || (raw.refused == old(raw.refused) && |data| < nmemb * size))
      ensures !old(writing) && !writeOnly && bufsz > 0 && nmemb * size <= old(bufeof - bufpos) ==> raw.file == old(raw.file)
    {
      hide Next, Items, Valid, View;
      var readsz := nmemb * size;
      data, items := [], 0;
      NoItems(size);
      ReadNothing(View());
      if readsz == 0 {
        return;
      }
      if bufsz == 0 {
        data := ReadUnbuffered(readsz);
        items := Items(|data|, size);
        return;
      }
      if writeOnly {
        Refuse();
        return;
      }
      var ok := StartReading();
      if !ok {
        return;
      }
      data := ReadAll(readsz);
      items := Items(|data|, size);
    }

    // ----- Writing -----

    /** Puts bytes into the buffer, as many as there is room for. */
    method BufferData(data: seq<byte>) returns (bytes: nat)
      requires Valid() && writing
      modifies `buffer, `bufpos
      ensures Valid() && bytes == (if bufsz - old(bufpos) < |data| then bufsz - old(bufpos) else |data|)
      ensures bufpos == old(bufpos) + bytes && View() == Written(old(View()), data[..bytes])
      ensures Held() == old(Held()) + data[..bytes]
    {
      bytes := if bufsz - bufpos < |data| then bufsz - bufpos else |data|;
      ghost var before := buffer[..bufpos];
      buffer := buffer[..bufpos] + data[..bytes] + buffer[bufpos + bytes..];
      bufpos := bufpos + bytes;
      assert buffer[..bufpos] == before + data[..bytes];
      WrittenTwice(raw.file, before, data[..bytes]);
    }

    /** Writes some of the buffer's first bytes, and moves the rest to the front. */
    method WriteBuffer(writesz: nat) returns (err: nat)
      requires Valid() && writing && writesz <= bufpos
      modifies `buffer, `bufpos, `error, raw
      ensures Valid() && View() == old(View()) && err <= writesz && bufpos == old(bufpos) - err
      ensures raw.refused >= old(raw.refused) && (err < writesz <==> raw.refused > old(raw.refused))
      ensures Held() == old(Held())[err..]
      ensures error == (old(error) || raw.refused > old(raw.refused))
    {
      hide Written;
      err := FullWrite(buffer[..writesz]);
      Front(old(raw.file), buffer, bufpos, writesz, err);
      bufpos := bufpos - err;
      if err < writesz {
        error := true;
      }
      if err > 0 && bufpos > 0 {
        buffer := buffer[err..err + bufpos] + buffer[bufpos..];
      }
    }

    static lemma Front(f: Plain, buffer: seq<byte>, bufpos: nat, writesz: nat, err: nat)
      requires err <= writesz <= bufpos <= |buffer|
      ensures Written(Written(f, buffer[..writesz][..err]), (buffer[err..bufpos] + buffer[bufpos - err..])[..bufpos - err])
           == Written(f, buffer[..bufpos])
      ensures err == 0 ==> Written(f, buffer[..writesz][..err]) == f
      ensures err == bufpos ==> Written(f, buffer[..writesz][..err]) == Written(f, buffer[..bufpos])
    {
      Rest(f, buffer, bufpos, err);
      assert buffer[..writesz][..err] == buffer[..bufpos][..err];
      WrittenNothing(f);
    }

    /** Writes past the empty buffer. */
    method WriteData(data: seq<byte>) returns (err: nat)
      requires Valid() && (if writing then bufpos == 0 else bufpos == bufeof)
      modifies `error, raw
      ensures Valid() && err <= |data| && View() == Written(old(View()), data[..err])
      ensures raw.refused >= old(raw.refused) && (err < |data| <==> raw.refused > old(raw.refused))
      ensures error == (old(error) || raw.refused > old(raw.refused))
    {
      WrittenNothing(raw.file);
      if !writing {
        assert buffer[bufpos..bufeof] == [];
      }
      err := FullWrite(data);
      WrittenNothing(raw.file);
      if err < |data| {
        error := true;
      }
    }

    /** The buffer is for writing from now on. */
    method StartWriting() returns (ok: bool)
      requires Valid() && bufsz > 0
      modifies this, raw
      ensures Valid() && View() == old(View()) && ok && writing && raw.refused == old(raw.refused)
      ensures error == (old(error) || raw.refused > old(raw.refused)) && eof == old(eof)
      ensures old(writing) ==> raw.file == old(raw.file) && bufpos == old(bufpos)
    {
      ok := true;
      if !writing {
        var ret := FlushOne();
        ok := ret >= 0 && bufpos == bufeof;
        if !ok {
          return;
        }
        WrittenNothing(raw.file);
        writing := true;
        bufpos := 0;
      }
    }

    /** Some first bytes of `data` written past the empty buffer. */
    method WriteSome(part: seq<byte>, ghost data: seq<byte>) returns (err: nat)
      requires Valid() && writing && bufpos == 0 && part <= data
      modifies `error, raw
      ensures Valid() && err <= |part| && View() == Written(old(View()), data[..err])
      ensures raw.refused >= old(raw.refused) && (err < |part| <==> raw.refused > old(raw.refused))
      ensures error == (old(error) || raw.refused > old(raw.refused))
    {
      err := WriteData(part);
      assert part[..err] == data[..err];
    }

    /** Bytes written in two goes. */
    static lemma WrittenPart(f: Plain, data: seq<byte>, done: nat, more: nat)
      requires done + more <= |data|
      ensures Written(Written(f, data[..done]), data[done..][..more]) == Written(f, data[..done + more])
      ensures Written(f, data[..0]) == f
    {
      WrittenTwice(f, data[..done], data[done..][..more]);
      assert data[..done] + data[done..][..more] == data[..done + more];
      WrittenNothing(f);
      assert data[..0] == [];
    }

    /** Some bytes were written past the buffer, but not all that should: what is left goes into it. */
    method BufferLeft(data: seq<byte>, done: nat) returns (total: nat)
      requires Valid() && writing && bufpos == 0 && done <= |data|
      modifies `buffer, `bufpos
      ensures Valid() && done <= total <= |data| && View() == Written(old(View()), data[done..total])
    {
      total := done;
      WrittenNothing(View());
      assert data[done..done] == [];
      if done > 0 {
        var more := BufferData(data[done..]);
        assert data[done..][..more] == data[done..done + more];
        total := done + more;
      }
    }

    /** In a line-buffered stream, writes whole lines past the empty buffer; buffers the rest. */
    method WriteLines(data: seq<byte>) returns (total: nat)
      requires Valid() && writing && bufpos == 0 && |data| < bufsz
      modifies this, raw
      ensures Valid() && total <= |data| && View() == Written(old(View()), data[..total]) && raw.refused >= old(raw.refused)
      ensures raw.refused == old(raw.refused) ==> total == |data|
      ensures raw.refused == old(raw.refused) && line ==> writing && NoNewline(Held())
      ensures error == (old(error) || raw.refused > old(raw.refused)) && eof == old(eof)
      ensures !line && |data| < bufsz ==> raw.file == old(raw.file)
    {
      hide Written, View;
      ghost var f := View();
      total := 0;
      WrittenPart(f, data, 0, 0);
      if |data| > 0 && line {
        var nl := LastNewline(data);
        if nl >= 0 {
          var bytes := nl + 1;
          var err := WriteSome(data[..bytes], data);
          if err < bytes {
            total := BufferLeft(data, err);
            WrittenTwice(f, data[..err], data[err..total]);
            assert data[..err] + data[err..total] == data[..total];
            return;
          }
          total := err;
        }
      }
      assert line ==> NoNewline(data[total..]);
      assert Held() == [];
      var more := BufferData(data[total..]);
      assert Held() == data[total..];
      WrittenPart(f, data, total, more);
      total := total + more;
    }

    /** Writes directly what fills whole buffers, and in a line-buffered stream whole lines; buffers the rest. */
    method WriteEmpty(data: seq<byte>) returns (total: nat)
      requires Valid() && writing && bufpos == 0 && bufsz > 0
      modifies this, raw
      ensures Valid() && total <= |data| && View() == Written(old(View()), data[..total]) && raw.refused >= old(raw.refused)
      ensures raw.refused == old(raw.refused) ==> total == |data|
      ensures raw.refused == old(raw.refused) && line ==> writing && bufpos <= |buffer| && NoNewline(Held())
      ensures error == (old(error) || raw.refused > old(raw.refused)) && eof == old(eof)
      ensures !line && |data| < bufsz ==> raw.file == old(raw.file)
    {
      hide Written, Whole, View, Valid, NoNewline;
      ghost var f := View();
      total := 0;
      WrittenPart(f, data, 0, 0);
      if |data| >= bufsz {
        var bytes := Whole(|data|, bufsz);
        total := WriteSome(data[..bytes], data);
        if total < bytes {
          ghost var err := total;
          total := BufferLeft(data, total);
          WrittenTwice(f, data[..err], data[err..total]);
          assert data[..err] + data[err..total] == data[..total];
          return;
        }
      }
      var more := WriteLines(data[total..]);
      FullOrNot();
      WrittenPart(f, data, total, more);
      total := total + more;
    }

    /** Behind the last newline there is none. */
    static lemma BehindLine(d: seq<byte>)
      ensures NoNewline(d[LastNewline(d) + 1..])
    {
    }

    /** Writes all of `data` it can: into a buffer begun, past an empty one, or behind what could not be written. */
    method WriteAll(data: seq<byte>) returns (total: nat)
      requires Valid() && writing && bufsz > 0
      modifies this, raw
      ensures Valid() && total <= |data| && View() == Written(old(View()), data[..total]) && raw.refused >= old(raw.refused)
      ensures raw.refused == old(raw.refused) ==> total == |data|
      ensures raw.refused == old(raw.refused) && line ==> writing && bufpos <= |buffer| && NoNewline(Held())
      ensures error == (old(error) || raw.refused > old(raw.refused)) && eof == old(eof)
      ensures !line && old(bufpos) + |data| < bufsz ==> raw.file == old(raw.file)
    {
      hide Written, View, Valid;
      ghost var f := View();
      total := 0;
      WrittenPart(f, data, 0, 0);
      FullOrNot();
      if 0 < bufpos < bufsz {
        total := BufferData(data);
      }
      if bufpos == bufsz {
        var err := WriteBuffer(bufsz);
        if err < bufsz {
          if err > 0 {
            var more := BufferData(data[total..]);
            WrittenPart(f, data, total, more);
            total := total + more;
          }
          return;
        }
      }
      if bufpos == 0 {
        var more := WriteEmpty(data[total..]);
        WrittenPart(f, data, total, more);
        total := total + more;
      } else if bufpos > 0 && line {
        WriteHeldLines();
      }
    }

    /** Writes the whole lines that are in the buffer. */
    method WriteHeldLines()
      requires Valid() && writing && bufpos > 0
      modifies this, raw
      ensures Valid() && writing && View() == old(View()) && raw.refused >= old(raw.refused)
      ensures raw.refused == old(raw.refused) ==> bufpos <= |buffer| && NoNewline(Held())
      ensures error == (old(error) || raw.refused > old(raw.refused)) && eof == old(eof)
    {
      hide Written, View;
      ghost var held := Held();
      BehindLine(held);
      assert held[0..] == held;
      var nl := LastNewline(buffer[..bufpos]);
      if nl >= 0 {
        var err := WriteBuffer(nl + 1);
      }
    }

    lemma FullOrNot()
      requires Valid()
      ensures bufpos <= bufsz == |buffer|
    {
    }

    /** Writes `nmemb` items. Of the bytes, as many as it tells are written as to a file without a buffer, in the buffer or
        past it; all of them, unless some transfer could move nothing for now. */
    method Fwrite(data: seq<byte>, size: nat, nmemb: nat) returns (items: nat, ghost total: nat)
      requires Valid() && |data| == nmemb * size
      modifies this, raw
      ensures Valid() && raw.refused >= old(raw.refused) && total <= |data|
      ensures items == Items(total, size)
      ensures View() == Written(old(View()), data[..total])
      ensures raw.refused == old(raw.refused) && !(readOnly && bufsz > 0) ==> total == |data|
      ensures raw.refused == old(raw.refused) && line && !readOnly && data != [] && bufsz > 0 ==> writing && NoNewline(Held())
      ensures eof == old(eof) && (data == [] ==> error == old(error) && raw.file == old(raw.file))
      ensures readOnly && bufsz > 0 && data != [] ==>
        items == 0 && total == 0 && error && View() == old(View()) && raw.file == old(raw.file)
      ensures !(readOnly && bufsz > 0) ==> error == (old(error) || raw.refused > old(raw.refused))
      ensures old(writing) && !line && !readOnly && old(bufpos) + |data| < bufsz ==> raw.file == old(raw.file)
    {
      hide Written, Items;
      var writesz := nmemb * size;
      items, total := 0, 0;
      NoItems(size);
      WrittenPart(View(), data, 0, 0);
      if writesz == 0 {
        return;
      }
      if bufsz == 0 {
        var err := WriteData(data);
        total := err;
        items := Items(err, size);
        return;
      }
      if readOnly {
        Refuse();
        return;
      }
      var ok := StartWriting();
      if !ok {
        return;
      }
      var done := WriteAll(data);
      total := done;
      items := Items(done, size);
    }

    // ----- Position -----

    method Fseek(offset: int, whence: Whence) returns (r: int)
      requires Valid()
      modifies this, raw
      ensures Valid() && raw.refused >= old(raw.refused)
      ensures r == -1 ==> View() == old(View())
      ensures var goal := offset + match whence case Set => 0 case Current => old(View()).pos case End => |old(View()).contents|;
        && (r == 0 ==> goal >= 0 && View() == old(View()).(pos := goal))
        && (raw.refused == old(raw.refused) && goal >= 0 ==> r == 0)
      ensures r == 0 || r == -1
      ensures error == (old(error) || raw.refused > old(raw.refused)) && eof == (old(eof) && r == -1)
    {
      var err := FlushOne();
      if err < 0 {
        return -1;
      }
      WrittenNothing(raw.file);
      if !writing {
        assert buffer[bufpos..bufeof] == [];
      }
      var off := raw.Seek(offset, whence);
      WrittenNothing(raw.file);
      if off != -1 {
        eof := false;
      }
      r := if off != -1 then 0 else -1;
    }

    method Ftell() returns (off: int)
      requires Valid()
      modifies raw`file
      ensures Valid() && View() == old(View()) && off == View().pos
    {
      off := raw.Seek(0, Current);
      if bufsz != 0 {
        if writing {
          off := off + bufpos;
        } else if bufpos != bufeof {
          off := off - (bufeof - bufpos);
        }
      }
    }
  }
}
