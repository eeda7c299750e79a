/** What the library asks of the operating system and the C library.  Every request may fail;
    what is held is recorded, so that leaks and double releases can be stated. */
module Platform {
  import opened Words
  import opened Wrappers

  /** Memory blocks, file descriptors, buffer handles and mappings that are held. */
  datatype Resources = Resources(
    blocks: multiset<nat>, fds: multiset<nat>, handles: multiset<nat>, maps: multiset<nat>)

  /** What `open` finds at a path. */
  datatype Inode = Inode(regular: bool, bytes: seq<byte>)

  datatype ReadResult = Interrupted | Failed | Transferred(n: nat)

  function Held(p: Option<nat>): multiset<nat> {
    if p.Some? then multiset{p.value} else multiset{}
  }

  /** A mapping into memory; `id` names it in the resources. */
  datatype Mapping = Mapping(id: nat, mem: array<byte>)

  class System {
    var res: Resources
    var next: nat
    var interrupts: nat
    ghost var faulted: bool

    ghost predicate Valid()
      reads this`res, this`next
    {
      next > 0 && Known(res.blocks) && Known(res.fds) && Known(res.handles) && Known(res.maps)
    }

    /** Nothing is held twice, and new things are new. */
    ghost predicate Known(m: multiset<nat>)
      reads this`next
    {
      forall x: nat :: m[x] <= 1 && (x >= next ==> m[x] == 0)
    }

    /** `malloc` or `calloc`. */
    method Malloc() returns (p: Option<nat>)
      requires Valid()
      modifies this`res, this`next, this`faulted
      ensures Valid() && next >= old(next) && (old(faulted) ==> faulted)
      ensures res == old(res).(blocks := old(res.blocks) + Held(p))
      ensures p.None? ==> faulted
      ensures p.Some? ==> p.value !in old(res.blocks) && faulted == old(faulted)
    {
      if * {
        faulted := true;
        return None;
      }
      p := Some(next);
      res := res.(blocks := res.blocks + multiset{next});
      next := next + 1;
    }

    /** `free` of a block that is held, or of NULL. */
    method Free(p: Option<nat>)
      requires Valid() && Held(p) <= res.blocks
      modifies this`res
      ensures Valid() && res == old(res).(blocks := old(res.blocks) - Held(p))
    {
      if p.Some? {
        res := res.(blocks := res.blocks - multiset{p.value});
      }
    }

    /** `realloc`; if it fails the old block stays. */
    method Realloc(p: Option<nat>) returns (q: Option<nat>)
      requires Valid() && Held(p) <= res.blocks
      modifies this`res, this`next, this`faulted
      ensures Valid() && next >= old(next) && (old(faulted) ==> faulted)
      ensures q.None? ==> faulted && res == old(res)
      ensures q.Some? ==> faulted == old(faulted)
      ensures q.Some? ==> res == old(res).(blocks := old(res.blocks) - Held(p) + Held(q))
    {
      if * {
        faulted := true;
        return None;
      }
      q := Some(next);
      res := res.(blocks := res.blocks - Held(p) + multiset{next});
      next := next + 1;
    }

    method Open() returns (fd: Option<nat>)
      requires Valid()
      modifies this`res, this`next, this`faulted
      ensures Valid() && next >= old(next) && (old(faulted) ==> faulted)
      ensures res == old(res).(fds := old(res.fds) + Held(fd))
      ensures fd.None? ==> faulted
      ensures fd.Some? ==> faulted == old(faulted)
    {
      if * {
        faulted := true;
        return None;
      }
      fd := Some(next);
      res := res.(fds := res.fds + multiset{next});
      next := next + 1;
    }

    method Close(fd: nat)
      requires Valid() && fd in res.fds
      modifies this`res
      ensures Valid() && res == old(res).(fds := old(res.fds) - multiset{fd})
    {
      res := res.(fds := res.fds - multiset{fd});
    }

    /** `fstat`. */
    method Stat() returns (ok: bool)
      modifies this`faulted
      ensures old(faulted) ==> faulted
      ensures ok ==> faulted == old(faulted)
      ensures !ok ==> faulted
    {
      ok := *;
      faulted := faulted || !ok;
    }

    /** The buffer-init ioctl; handle 0 stands for failure, as no buffer has that handle. */
    method BoInit() returns (handle: nat)
      requires Valid()
      modifies this`res, this`next, this`faulted
      ensures Valid() && next >= old(next) && (old(faulted) ==> faulted)
      ensures handle == 0 ==> faulted && res == old(res)
      ensures handle != 0 ==> faulted == old(faulted)
      ensures handle != 0 ==> res == old(res).(handles := old(res.handles) + multiset{handle})
    {
      if * {
        faulted := true;
        return 0;
      }
      handle := next;
      res := res.(handles := res.handles + multiset{next});
      next := next + 1;
    }

    method BoFree(handle: nat)
      requires Valid() && handle in res.handles
      modifies this`res
      ensures Valid() && res == old(res).(handles := old(res.handles) - multiset{handle})
    {
      res := res.(handles := res.handles - multiset{handle});
    }

    /** `mmap` of a buffer; nothing is known of its contents. */
    method Mmap(size: nat) returns (m: Option<Mapping>)
      requires Valid()
      modifies this`res, this`next, this`faulted
      ensures Valid() && next >= old(next) && (old(faulted) ==> faulted)
      ensures m.None? ==> faulted && res == old(res)
      ensures m.Some? ==> faulted == old(faulted) && res == old(res).(maps := old(res.maps) + multiset{m.value.id})
      ensures m.Some? ==> fresh(m.value.mem) && m.value.mem.Length == size
    {
      if * {
        faulted := true;
        return None;
      }
      var mem := new byte[size];
      m := Some(Mapping(next, mem));
      res := res.(maps := res.maps + multiset{next});
      next := next + 1;
    }

    method Munmap(m: Mapping)
      requires Valid() && m.id in res.maps
      modifies this`res
      ensures Valid() && res == old(res).(maps := old(res.maps) - multiset{m.id})
    {
      res := res.(maps := res.maps - multiset{m.id});
    }

    /** `pread`: any part of what is asked for, nothing at the end of the file, an interruption
        (finitely many), or an error. */
    method Pread(bytes: seq<byte>, dst: array<byte>, to: nat, size: nat, offset: nat) returns (r: ReadResult)
      requires size > 0 && to + size <= dst.Length
      modifies this`interrupts, this`faulted, dst
      ensures old(faulted) ==> faulted
      ensures interrupts <= old(interrupts)
      ensures r.Interrupted? ==> interrupts < old(interrupts) && faulted == old(faulted)
      ensures r.Failed? ==> faulted
      ensures r.Transferred? ==> faulted == old(faulted) && r.n <= size && (r.n == 0 <==> offset >= |bytes|)
      ensures r.Transferred? && r.n > 0 ==> offset + r.n <= |bytes|
      ensures r.Transferred? && r.n > 0 ==>
        dst[..] == old(dst[..to]) + bytes[offset..offset + r.n] + old(dst[to + r.n..])
      ensures !(r.Transferred? && r.n > 0) ==> dst[..] == old(dst[..])
    {
      if interrupts > 0 {
        if * {
          interrupts := interrupts - 1;
          return Interrupted;
        }
      }
      if * {
        faulted := true;
        return Failed;
      }
      if offset >= |bytes| {
        return Transferred(0);
      }
      var most := if size <= |bytes| - offset then size else |bytes| - offset;
      var n: nat := *;
      if n == 0 || n > most {
        n := most;
      }
      forall j | 0 <= j < n {
        dst[to + j] := bytes[offset + j];
      }
      r := Transferred(n);
    }
  }
}
