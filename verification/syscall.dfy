/** Copying across the user boundary (kernel/mm/uaccess.c) and the write system call
    (kernel/syscall/syscall.c), on the page tables in CR3. */
module Syscall {
  import opened Elf
  import opened Paging
  import opened Pmm
  import opened Vmm

  const EFAULT: int := 14
  const EINVAL: int := 22
  const WRITE_MAX: nat := 1024 * 1024
  const WRITE_CHUNK: nat := 256

  /** The byte user code sees at `v`. */
  function UserByte(mem: Memory, ram: Ram, r: nat, v: nat): Byte {
    match Read(mem, ram, r, v)
    case Nothing => 0
    case Just(b) => b
  }

  /** User memory of space `r` as a function of the address. */
  function UserView(mem: Memory, ram: Ram, r: nat): nat -> Byte {
    (v: nat) => UserByte(mem, ram, r, v)
  }

  /** The `n` bytes from `va` on. */
  function Stretch(view: nat -> Byte, va: nat, n: nat): (bytes: seq<Byte>)
    ensures |bytes| == n && forall i | 0 <= i < n :: bytes[i] == view(va + i)
  {
    if n == 0 then [] else Stretch(view, va, n - 1) + [view(va + n - 1)]
  }

  lemma {:induction false} StretchAppend(view: nat -> Byte, va: nat, m: nat, n: nat, vb: nat)
    requires vb == va + m
    ensures Stretch(view, va, m + n) == Stretch(view, va, m) + Stretch(view, vb, n)
  {
    if n > 0 {
      StretchAppend(view, va, m, n - 1, vb);
    }
  }

  lemma StretchNext(view: nat -> Byte, va: nat, i: nat, v: nat)
    requires v == va + i
    ensures Stretch(view, va, i + 1) == Stretch(view, va, i) + [view(v)]
  {}

  /** What a chunk adds to the output. */
  lemma ChunkWritten(view: nat -> Byte, va: nat, m: nat, n: nat, vb: nat, out: seq<Byte>, before: seq<Byte>, after: seq<Byte>, k: nat)
    requires vb == va + m && k == m + n
    requires before == out + Stretch(view, va, m) && after == before + Stretch(view, vb, n)
    ensures after == out + Stretch(view, va, k)
  {
    StretchAppend(view, va, m, n, vb);
    assert out + Stretch(view, va, m) + Stretch(view, vb, n) == out + (Stretch(view, va, m) + Stretch(view, vb, n));
  }

  /** Every byte Ring 3 may access is a byte of memory, never a default. */
  lemma AccessibleIsBacked(mem: Memory, at: Places, k: nat, r: nat, ram: Ram, used: set<nat>, total: nat, v: nat, write: bool)
    requires Inv(mem, at, k) && IsRoot(at, r) && r != k && v < USER_SPACE_END && Accessible(mem, r, v, write)
    requires (forall f | f in at :: f in used) && (forall f | f in used :: f < total)
    requires forall pa: nat :: pa < total * FRAME_SIZE ==> pa in ram
    ensures Read(mem, ram, r, v) == Just(UserByte(mem, ram, r, v))
  {
    LeafIsNoTable(mem, at, k, r, v);
  }

  /** Every byte of the range is a byte of memory. */
  ghost predicate Backed(mem: Memory, ram: Ram, r: nat, va: nat, n: nat) {
    forall v: nat :: va <= v < va + n ==> Read(mem, ram, r, v) == Just(UserByte(mem, ram, r, v))
  }

  lemma RangeIsBacked(mem: Memory, at: Places, k: nat, r: nat, ram: Ram, used: set<nat>, total: nat, va: nat, n: nat, write: bool)
    requires Inv(mem, at, k) && IsRoot(at, r) && r != k && UserRange(mem, r, va, n, write)
    requires (forall f | f in at :: f in used) && (forall f | f in used :: f < total)
    requires forall pa: nat :: pa < total * FRAME_SIZE ==> pa in ram
    ensures Backed(mem, ram, r, va, n)
  {
    forall v: nat | va <= v < va + n
      ensures Read(mem, ram, r, v) == Just(UserByte(mem, ram, r, v))
    {
      AccessibleIsBacked(mem, at, k, r, ram, used, total, v, write);
    }
  }

  class Kernel {
    const machine: Loader
    /** What has been printed. */
    var output: seq<Byte>

    constructor (machine: Loader)
      ensures this.machine == machine && output == []
    {
      this.machine := machine;
      output := [];
    }

    /** A process is running: CR3 holds its page table, not the kernel's. */
    ghost predicate InProcess()
      reads this, machine, machine.vmm, machine.vmm.pmm, machine.vmm.pmm.bitmap
    {
      machine.Valid() && IsRoot(machine.vmm.at, machine.vmm.cr3) && machine.vmm.cr3 != machine.vmm.kernelPml4
    }

    /** `copy_from_user`: all of the bytes, or an error and none. */
    method CopyFromUser(dst: array<Byte>, userSrc: nat, n: nat) returns (err: int)
      requires InProcess() && userSrc < TWO64 && n < TWO64 && n <= dst.Length
      modifies dst
      ensures err == 0 <==> UserRange(machine.vmm.mem, machine.vmm.cr3, userSrc, n, false)
      ensures err != 0 ==> err == -EFAULT && dst[..] == old(dst[..])
      ensures err == 0 ==> dst[..n] == Stretch(UserView(machine.vmm.mem, machine.ram, machine.vmm.cr3), userSrc, n)
      ensures err == 0 ==> Backed(machine.vmm.mem, machine.ram, machine.vmm.cr3, userSrc, n)
      ensures dst[n..] == old(dst[n..])
    {
      var ok := machine.vmm.UserRangeOk(machine.vmm.cr3, userSrc, n, false);
      if !ok { return -EFAULT; }
      ghost var mem, ram, r := machine.vmm.mem, machine.ram, machine.vmm.cr3;
      ghost var view := UserView(mem, ram, r);
      for i := 0 to n
        invariant dst[..i] == Stretch(view, userSrc, i)
        invariant dst[n..] == old(dst[n..])
      {
        var v := userSrc + i;
        dst[i] := UserByte(machine.vmm.mem, machine.ram, machine.vmm.cr3, v);
        StretchNext(view, userSrc, i, v);
        assert dst[..i + 1] == dst[..i] + [view(v)];
      }
      RangeIsBacked(mem, machine.vmm.at, machine.vmm.kernelPml4, r, ram,
                    machine.vmm.pmm.used, machine.vmm.pmm.totalFrames, userSrc, n, false);
      return 0;
    }

    /** `sys_write`: prints exactly the `count` bytes in order and returns the count, or
        prints nothing and returns the error. */
    method SysWrite(ubuf: nat, count: nat) returns (ret: int)
      requires InProcess() && ubuf < TWO64 && count < TWO64
      modifies this`output
      ensures count > WRITE_MAX ==> ret == -EINVAL && output == old(output)
      ensures count <= WRITE_MAX && !UserRange(machine.vmm.mem, machine.vmm.cr3, ubuf, count, false) ==>
                ret == -EFAULT && output == old(output)
      ensures count <= WRITE_MAX && UserRange(machine.vmm.mem, machine.vmm.cr3, ubuf, count, false) ==>
                && ret == count
                && output == old(output) + Stretch(UserView(machine.vmm.mem, machine.ram, machine.vmm.cr3), ubuf, count)
    {
      if count > WRITE_MAX { return -EINVAL; }
      var ok := machine.vmm.UserRangeOk(machine.vmm.cr3, ubuf, count, false);
      if !ok { return -EFAULT; }
      var kbuf := new Byte[WRITE_CHUNK](_ => 0);
      var done := 0;
      ghost var view, out := UserView(machine.vmm.mem, machine.ram, machine.vmm.cr3), output;
      while done < count
        invariant done <= count
        invariant output == out + Stretch(view, ubuf, done)
      {
        var n := if count - done > WRITE_CHUNK then WRITE_CHUNK else count - done;
        WriteNext(kbuf, ubuf, count, done, n, out);
        done := done + n;
      }
      return done;
    }

    /** One turn of the write loop, with `done` bytes printed before it. */
    method WriteNext(kbuf: array<Byte>, ubuf: nat, count: nat, done: nat, n: nat, ghost out: seq<Byte>)
      requires InProcess() && ubuf < TWO64 && n <= kbuf.Length && n < TWO64 && 0 < n && done + n <= count
      requires UserRange(machine.vmm.mem, machine.vmm.cr3, ubuf, count, false)
      requires output == out + Stretch(UserView(machine.vmm.mem, machine.ram, machine.vmm.cr3), ubuf, done)
      modifies this`output, kbuf
      ensures output == out + Stretch(UserView(machine.vmm.mem, machine.ram, machine.vmm.cr3), ubuf, done + n)
    {
      var v := ubuf + done;
      ghost var before := output;
      SubRange(machine.vmm.mem, machine.vmm.cr3, ubuf, count, false, v, n);
      WriteChunk(kbuf, v, n);
      ChunkWritten(UserView(machine.vmm.mem, machine.ram, machine.vmm.cr3), ubuf, done, n, v, out, before, output, done + n);
    }

    /** The copy and the print of one turn. The copy cannot fail: the range it reads is part of the
        one checked before, so the early return in the loop is never taken. */
    method WriteChunk(kbuf: array<Byte>, v: nat, n: nat)
      requires InProcess() && v < TWO64 && n < TWO64 && n <= kbuf.Length
      requires UserRange(machine.vmm.mem, machine.vmm.cr3, v, n, false)
      modifies this`output, kbuf
      ensures output == old(output) + Stretch(UserView(machine.vmm.mem, machine.ram, machine.vmm.cr3), v, n)
    {
      var err := CopyFromUser(kbuf, v, n);
      if err != 0 { assert false; }
      Emit(kbuf, n);
    }

    /** Print the first `n` bytes of the buffer, one by one. */
    method Emit(kbuf: array<Byte>, n: nat)
      requires n <= kbuf.Length
      modifies this`output
      ensures output == old(output) + kbuf[..n]
    {
      for i := 0 to n
        invariant output == old(output) + kbuf[..i]
      {
        output := output + [kbuf[i]];
      }
    }

    /** `copy_to_user`: afterwards the user reads exactly the source bytes at the destination
        and nothing else of its memory has changed; or an error, and nothing has. */
    method CopyToUser(userDst: nat, src: seq<Byte>) returns (err: int)
      requires InProcess() && userDst < TWO64 && |src| < TWO64
      modifies machine`ram
      ensures InProcess()
      ensures err == 0 <==> UserRange(machine.vmm.mem, machine.vmm.cr3, userDst, |src|, true)
      ensures err != 0 ==> err == -EFAULT && machine.ram == old(machine.ram)
      ensures err == 0 ==> forall w: nat :: w < USER_SPACE_END && old(Read(machine.vmm.mem, machine.ram, machine.vmm.cr3, w)).Just? ==>
                Read(machine.vmm.mem, machine.ram, machine.vmm.cr3, w) ==
                if userDst <= w < userDst + |src| then Just(src[w - userDst])
                else old(Read(machine.vmm.mem, machine.ram, machine.vmm.cr3, w))
    {
      var ok := machine.vmm.UserRangeOk(machine.vmm.cr3, userDst, |src|, true);
      if !ok { return -EFAULT; }
      ghost var mem, ram0, r := machine.vmm.mem, machine.ram, machine.vmm.cr3;
      for i := 0 to |src|
        invariant InProcess()
        invariant CopiedTo(mem, ram0, machine.ram, r, userDst, src, i)
      {
        ghost var v, ram1 := userDst + i, machine.ram;
        AccessibleIsBacked(mem, machine.vmm.at, machine.vmm.kernelPml4, r, machine.ram,
                           machine.vmm.pmm.used, machine.vmm.pmm.totalFrames, v, true);
        var pa := Translate(machine.vmm.mem, machine.vmm.cr3, userDst + i);
        machine.ram := machine.ram[pa := src[i]];
        CopyOneMore(mem, machine.vmm.at, machine.vmm.kernelPml4, ram0, ram1, machine.ram, r, userDst, src, i, v);
      }
      return 0;
    }
  }

  /** The first `n` bytes are in place and no other readable byte has changed. */
  ghost predicate CopiedTo(mem: Memory, ram0: Ram, ram: Ram, r: nat, dst: nat, src: seq<Byte>, n: nat)
    requires n <= |src|
  {
    && (forall pa | pa in ram0 :: pa in ram)
    && forall w: nat :: w < USER_SPACE_END && Read(mem, ram0, r, w).Just? ==>
         Read(mem, ram, r, w) == if dst <= w < dst + n then Just(src[w - dst]) else Read(mem, ram0, r, w)
  }

  lemma CopyOneMore(mem: Memory, at: Places, k: nat, ram0: Ram, ram1: Ram, ram: Ram, r: nat, dst: nat, src: seq<Byte>, i: nat, v: nat)
    requires Inv(mem, at, k) && IsRoot(at, r) && r != k && i < |src| && v == dst + i && v < USER_SPACE_END
    requires CopiedTo(mem, ram0, ram1, r, dst, src, i) && Lookup(mem, r, PageOf(v)).Mapped?
    requires ram == ram1[Translate(mem, r, v) := src[i]]
    ensures CopiedTo(mem, ram0, ram, r, dst, src, i + 1)
  {
    forall w: nat | w < USER_SPACE_END && Read(mem, ram0, r, w).Just?
      ensures Read(mem, ram, r, w) == if dst <= w < dst + (i + 1) then Just(src[w - dst]) else Read(mem, ram0, r, w)
    {
      if w != v {
        BytesApart(mem, at, k, r, v, w);
      }
    }
  }
}
