/**
 Copying one file to and from a remote node in chunks: the loops of `__fwrite` and `__fread`
 (src/node/Node.c) against the handlers `node_write_file` and `node_read_file`
 (src/node/node_service.c).
 */
module FileCopy {
  type Byte = bv8
  type Bytes = seq<Byte>

  /** uint32_t, in which both loops keep sizes and offsets. */
  type Word = n: nat | n < 0x1_0000_0000

  function ToWord(n: nat): Word {
    n % 0x1_0000_0000
  }

  /** A file system with plain files. */
  class FileSystem {
    var files: map<string, Bytes>

    /** fopen(path, "a+"), a seek, and a write: append mode writes at the end whatever the seek. */
    method OpenAppend(path: string, data: Bytes)
      modifies this
      ensures files == old(files)[path := (if path in old(files) then old(files)[path] else []) + data]
    {
      if path !in files {
        files := files[path := []];
      }
      files := files[path := files[path] + data];
    }
  }

  // ------------------------------------------------------------------ the service

  /** node_write_file: a write at offset 0 starts the file over, any other write appends. */
  method NodeWriteFile(fs: FileSystem, path: string, offset: nat, data: Bytes)
    modifies fs
    ensures var kept := if path in old(fs.files) && offset != 0 then old(fs.files)[path] else [];
            fs.files == old(fs.files)[path := kept + data]
  {
    if path in fs.files && offset == 0 {
      fs.files := fs.files - {path};
    } else if path !in fs.files {
      fs.files := fs.files[path := []];
    }
    fs.OpenAppend(path, data);
  }

  /** What the service puts into a reply of `len` bytes: file bytes, then what the buffer held before. */
  function Reply(file: Bytes, offset: nat, len: nat, stale: nat -> Byte): (out: Bytes)
    ensures |out| == len
    ensures offset + len <= |file| ==> out == file[offset..offset + len]
  {
    seq(len, i requires 0 <= i < len => if offset + i < |file| then file[offset + i] else stale(i))
  }

  /** node_read_file: always reports `len` bytes, whether or not the file holds them. */
  method NodeReadFile(fs: FileSystem, path: string, offset: nat, len: nat, stale: nat -> Byte)
    returns (ret: int, out: Bytes)
    ensures ret == if path in fs.files then 1 else -1
    ensures out == if ret == 1 then Reply(fs.files[path], offset, len, stale) else []
  {
    if path !in fs.files {
      return -1, [];
    }
    var file := fs.files[path];
    var there := if |file| < offset then 0 else if |file| - offset < len then |file| - offset else len;
    out := if there == 0 then [] else file[offset..offset + there];
    out := out + seq(len - there, i requires 0 <= i < len - there => stale(there + i));
    ret := 1;
    assert out == Reply(file, offset, len, stale);
  }

  /**
   A write lands where the file ended, whatever the offset said, and reading from there returns
   exactly what was written.
   */
  method WriteThenRead(fs: FileSystem, path: string, offset: nat, data: Bytes, stale: nat -> Byte)
    returns (ret: int, out: Bytes)
    modifies fs
    ensures ret == 1 && out == data
    ensures fs.files.Keys == old(fs.files).Keys + {path}
    ensures forall other :: other in old(fs.files) && other != path ==> fs.files[other] == old(fs.files)[other]
  {
    var at := if path in fs.files && offset != 0 then |fs.files[path]| else 0;
    NodeWriteFile(fs, path, offset, data);
    ret, out := NodeReadFile(fs, path, at, |data|, stale);
  }

  // --------------------------------------------------------------------- requests

  /** One write request. */
  datatype Request = Request(offset: nat, data: Bytes)

  /** Requests of at most 1024 bytes each that lie end to end and together carry `content`. */
  ghost predicate Tiles(rs: seq<Request>, content: Bytes) {
    if rs == [] then content == []
    else
      var last := rs[|rs| - 1];
      && |last.data| <= 1024
      && last.offset + |last.data| == |content|
      && last.data == content[last.offset..]
      && Tiles(rs[..|rs| - 1], content[..last.offset])
  }

  lemma TilesStep(rs: seq<Request>, done: nat, content: Bytes, n: nat)
    requires done + n <= |content| && n <= 1024 && Tiles(rs, content[..done])
    ensures Tiles(rs + [Request(done, content[done..done + n])], content[..done + n])
  {
    var r := Request(done, content[done..done + n]);
    assert (rs + [r])[..|rs|] == rs;
    assert content[..done + n][..done] == content[..done];
  }

  /** Every request carries its own part of the content, and the next one starts where it ends. */
  lemma {:induction false} TilesAt(rs: seq<Request>, content: Bytes, k: nat)
    requires Tiles(rs, content) && k < |rs|
    ensures |rs[k].data| <= 1024 && rs[k].offset + |rs[k].data| <= |content|
    ensures rs[k].data == content[rs[k].offset..rs[k].offset + |rs[k].data|]
    ensures k == 0 ==> rs[k].offset == 0
    ensures (if k + 1 < |rs| then rs[k + 1].offset else |content|) == rs[k].offset + |rs[k].data|
  {
    var n := |rs| - 1;
    if k < n {
      var front := content[..rs[n].offset];
      TilesAt(rs[..n], front, k);
      assert front[rs[k].offset..rs[k].offset + |rs[k].data|] == content[rs[k].offset..rs[k].offset + |rs[k].data|];
    }
  }

  // ----------------------------------------------------------------------- client

  /** One round of the loop of __fwrite. */
  method SendChunk(local: Bytes, remote: FileSystem, to: string, offset: nat, n: nat)
    requires offset + n <= |local|
    requires offset != 0 ==> to in remote.files && remote.files[to] == local[..offset]
    modifies remote
    ensures remote.files == old(remote.files)[to := local[..offset + n]]
  {
    var buffer := local[offset..offset + n];
    NodeWriteFile(remote, to, offset, buffer);
    assert local[..offset] + buffer == local[..offset + n];
    assert remote.files[to] == local[..offset + n];
  }

  /** How far the loop of __fwrite gets: full chunks up to the truncated size, and one more. */
  function Reach(n: nat): (r: nat)
    ensures r <= n && (r == n <==> n < 0x1_0000_0000)
  {
    var top := (ToWord(n) / 1024 + 1) * 1024;
    if n < top then n else top
  }

  lemma ArrivesWhole(file: Bytes)
    ensures file[..Reach(|file|)] == file <==> |file| < 0x1_0000_0000
  {
    assert |file[..Reach(|file|)]| == Reach(|file|);
  }

  /** No offset that is sent wraps around, and only the first one is 0. */
  lemma OffsetFits(n: nat, chunk: nat)
    requires chunk <= ToWord(n) / 1024
    ensures var pos := if chunk * 1024 < n then chunk * 1024 else n;
            ToWord(pos) == pos && (pos == 0 ==> chunk == 0)
  {
    assert chunk * 1024 <= ToWord(n) <= n;
  }

  /**
   The loop of __fwrite for one local file, whose size is cut to 32 bits. The whole file arrives
   exactly when it is shorter than 4 GiB.
   */
  method Fwrite(local: Bytes, remote: FileSystem, to: string) returns (sent: seq<Request>)
    modifies remote
    ensures remote.files == old(remote.files)[to := local[..Reach(|local|)]]
    ensures remote.files[to] == local <==> |local| < 0x1_0000_0000
    ensures Tiles(sent, local[..Reach(|local|)]) && |sent| == ToWord(|local|) / 1024 + 1
  {
    var size: Word, offset: Word := ToWord(|local|), 0;
    var pos := 0;
    sent := [];
    for j := 0 to size / 1024 + 1
      invariant |sent| == j
      invariant pos == if j * 1024 < |local| then j * 1024 else |local|
      invariant offset == ToWord(pos)
      invariant Tiles(sent, local[..pos])
      invariant remote.files == if j == 0 then old(remote.files) else old(remote.files)[to := local[..pos]]
    {
      var readLen := if |local| - pos < 1024 then |local| - pos else 1024;
      OffsetFits(|local|, j);
      TilesStep(sent, pos, local, readLen);
      SendChunk(local, remote, to, offset, readLen);
      sent := sent + [Request(offset, local[pos..pos + readLen])];
      offset := ToWord(offset + readLen);
      pos := pos + readLen;
    }
    assert pos == Reach(|local|);
    ArrivesWhole(local);
  }

  /** What the loop of __fread makes of a file listed with `size` bytes: every chunk's missing bytes are stale ones. */
  function Fetched(file: Bytes, size: nat, stale: nat -> Byte): (r: Bytes)
    ensures |r| == size
    ensures size <= |file| ==> r == file[..size]
  {
    seq(size, i requires 0 <= i < size => if i < |file| then file[i] else stale(i % 1024))
  }

  /** The next chunk continues what was fetched before. */
  lemma FetchedStep(file: Bytes, chunk: nat, len: nat, stale: nat -> Byte)
    requires len <= 1024
    ensures Fetched(file, chunk * 1024 + len, stale) ==
            Fetched(file, chunk * 1024, stale) + Reply(file, chunk * 1024, len, stale)
  {
    var all, front := Fetched(file, chunk * 1024 + len, stale), Fetched(file, chunk * 1024, stale);
    forall k | chunk * 1024 <= k < |all| ensures all[k] == Reply(file, chunk * 1024, len, stale)[k - chunk * 1024] {
      assert k % 1024 == k - chunk * 1024;
    }
  }

  /** The loop of __fread for one remote file listed with `size` bytes, appending to an open local file. */
  method ReadLoop(remote: FileSystem, from: string, size: Word, local: FileSystem, to: string, stale: nat -> Byte)
    returns (ret: int)
    requires local != remote && to in local.files
    modifies local
    ensures ret == if from in remote.files then 1 else -1
    ensures ret == -1 ==> local.files == old(local.files)
    ensures ret == 1 ==>
              local.files == old(local.files)[to := old(local.files)[to] + Fetched(remote.files[from], size, stale)]
  {
    var offset: Word := 0;
    for j := 0 to size / 1024 + 1
      invariant offset == if j * 1024 < size then j * 1024 else size
      invariant j > 0 ==> from in remote.files
      invariant remote.files == old(remote.files)
      invariant local.files ==
                if j == 0 then old(local.files)
                else old(local.files)[to := old(local.files)[to] + Fetched(remote.files[from], offset, stale)]
    {
      var left := size - j * 1024;
      var len := if left > 1024 then 1024 else left;
      var code, data := NodeReadFile(remote, from, offset, len, stale);
      if code < 0 {
        return -1;
      }
      ghost var was, file := old(local.files)[to], remote.files[from];
      assert offset == j * 1024;
      assert local.files[to] == was + Fetched(file, offset, stale);
      FetchedStep(file, j, len, stale);
      assert was + Fetched(file, offset + len, stale) == was + Fetched(file, offset, stale) + data;
      local.OpenAppend(to, data);
      offset := offset + len;
    }
    return 1;
  }

  predicate EndsInDot(name: string) {
    |name| > 0 && name[|name| - 1] == '.'
  }

  /**
   The size that flist reports travels through a double into an int; past 2 GiB the outcome, `huge`,
   is undefined in C.
   */
  function Listed(n: nat, huge: Word): Word {
    if n < 0x8000_0000 then n else huge
  }

  /**
   __fread of one remote file: a missing file is an error, a name that ends in '.' is skipped
   without one, and an existing local file is appended to.
   */
  method Fread(remote: FileSystem, from: string, local: FileSystem, to: string, huge: Word, stale: nat -> Byte)
    returns (ret: int)
    requires local != remote && from != ""
    modifies local
    ensures ret == if from in remote.files then 1 else -1
    ensures ret == -1 || EndsInDot(from) ==> local.files == old(local.files)
    ensures ret == 1 && !EndsInDot(from) ==>
              var size := Listed(|remote.files[from]|, huge);
              local.files == old(local.files)[to := (if to in old(local.files) then old(local.files)[to] else [])
                                                    + Fetched(remote.files[from], size, stale)]
  {
    if from !in remote.files {
      return -1;
    }
    if from[|from| - 1] == '.' {
      return 1;
    }
    var size := Listed(|remote.files[from]|, huge);
    if to !in local.files {
      local.files := local.files[to := []];
    }
    ret := ReadLoop(remote, from, size, local, to, stale);
  }

  /**
   Writing a file and reading it back yields its content exactly when the remote name does not
   end in '.' and the local target was absent or empty.
   */
  method RoundTrip(content: Bytes, remote: FileSystem, name: string, local: FileSystem, to: string,
                   huge: Word, stale: nat -> Byte)
    returns (ret: int)
    requires local != remote && name != ""
    modifies remote, local
    ensures ret == 1
    ensures |content| < 0x1_0000_0000 ==> remote.files == old(remote.files)[name := content]
    ensures EndsInDot(name) ==> local.files == old(local.files)
    ensures !EndsInDot(name) ==> to in local.files
    ensures !EndsInDot(name) && |content| < 0x8000_0000 ==>
              (local.files[to] == content <==> to !in old(local.files) || old(local.files)[to] == [])
  {
    var _ := Fwrite(content, remote, name);
    ret := Fread(remote, name, local, to, huge, stale);
  }

  /** Reading onto a file that has content appends: one byte read onto a copy of itself becomes two. */
  method SecondReadDoubles(b: Byte, remote: FileSystem, local: FileSystem, stale: nat -> Byte)
    requires local != remote && "f" !in local.files
    modifies remote, local
    ensures "f" in remote.files && remote.files["f"] == [b]
    ensures "f" in local.files && local.files["f"] == [b, b]
  {
    var _ := RoundTrip([b], remote, "f", local, "f", 0, stale);
    var _ := Fread(remote, "f", local, "f", 0, stale);
  }
}
