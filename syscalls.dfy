/**
 * The newlib system-call stubs of the firmware: the `_sbrk` bump allocator
 * behind malloc, and the stubs that answer with constants.
 *
 * Addresses are integers. The linker symbols `end` (first free byte after
 * the static data) and `_estack` (top of the stack region) are fixed
 * addresses, and a null break is the address 0.
 */
module Syscalls {

  /** newlib's errno values and st_mode file type used by the stubs. */
  const ENOMEM: int := 12
  const EINVAL: int := 22
  const S_IFCHR: int := 0x2000

  /** (caddr_t)-1, the failure value of sbrk. */
  const SBRK_FAILED: int := -1

  /** One `_sbrk` call: the new break, the value returned, and whether
      errno was set to ENOMEM. */
  datatype SbrkOutcome = SbrkOutcome(brk: int, result: int, enomem: bool)

  /** The break the call works from: the static break, set to `end` if
      it is still null. */
  function Start(heapEnd: int, endAddr: int): int
  {
    if heapEnd == 0 then endAddr else heapEnd
  }

  /** `_sbrk(incr)` with the static break `heapEnd`: either the call fails
      and the break stays where it starts, or it grants `incr` bytes from
      the start and returns the start. */
  function SbrkStep(heapEnd: int, endAddr: int, stackLimit: int, incr: int): (o: SbrkOutcome)
    ensures o.enomem <==> Start(heapEnd, endAddr) + incr > stackLimit
    ensures o.enomem ==> o.result == SBRK_FAILED && o.brk == Start(heapEnd, endAddr)
    ensures !o.enomem ==> o.result == Start(heapEnd, endAddr) && o.brk == o.result + incr
    ensures Start(heapEnd, endAddr) <= stackLimit ==> o.brk <= stackLimit
  {
    var prev := Start(heapEnd, endAddr);
    if prev + incr > stackLimit then SbrkOutcome(prev, SBRK_FAILED, true)
    else SbrkOutcome(prev + incr, prev, false)
  }

  /** The first call sets the break to `end` and then grants from there. */
  lemma FirstCallStartsAtEnd(endAddr: int, stackLimit: int, incr: int)
    ensures var o := SbrkStep(0, endAddr, stackLimit, incr);
      o.brk == (if o.enomem then endAddr else endAddr + incr) &&
      (!o.enomem ==> o.result == endAddr)
  {
  }

  /** A request that would pass the stack limit fails with -1 and ENOMEM
      and leaves an initialised break where it was; every other request
      returns the previous break and moves the break by `incr`. */
  lemma SbrkGrantsUpToTheLimit(heapEnd: int, endAddr: int, stackLimit: int, incr: int)
    requires heapEnd != 0
    ensures var o := SbrkStep(heapEnd, endAddr, stackLimit, incr);
      && (o.enomem <==> heapEnd + incr > stackLimit)
      && (o.enomem ==> o.result == SBRK_FAILED && o.brk == heapEnd)
      && (!o.enomem ==> o.result == heapEnd && o.brk == heapEnd + incr)
  {
  }

  /** The break never passes the stack limit, provided `end` does not. */
  lemma SbrkStaysBelowLimit(heapEnd: int, endAddr: int, stackLimit: int, incr: int)
    requires endAddr <= stackLimit && heapEnd <= stackLimit
    ensures SbrkStep(heapEnd, endAddr, stackLimit, incr).brk <= stackLimit
  {
  }

  /** A zero increment returns the current break and leaves it unchanged. */
  lemma SbrkZeroIsQuery(heapEnd: int, endAddr: int, stackLimit: int)
    requires heapEnd != 0 && heapEnd <= stackLimit
    ensures SbrkStep(heapEnd, endAddr, stackLimit, 0) == SbrkOutcome(heapEnd, heapEnd, false)
  {
  }

  /** The outcomes of successive calls with the increments `incrs`. */
  function Outcomes(heapEnd: int, endAddr: int, stackLimit: int, incrs: seq<int>): (r: seq<SbrkOutcome>)
    ensures |r| == |incrs|
    ensures incrs != [] ==> r[0] == SbrkStep(heapEnd, endAddr, stackLimit, incrs[0])
    decreases |incrs|
  {
    if incrs == [] then []
    else
      var o := SbrkStep(heapEnd, endAddr, stackLimit, incrs[0]);
      [o] + Outcomes(o.brk, endAddr, stackLimit, incrs[1..])
  }

  function Sum(s: seq<int>): int
    decreases |s|
  {
    if s == [] then 0 else s[0] + Sum(s[1..])
  }

  /** Granted calls with positive increments hand out adjacent regions:
      call i returns the start plus the earlier increments, and its region
      [result, result + incr) ends before any later region begins. */
  lemma {:induction false} GrantedRegionsAreAdjacent(heapEnd: int, endAddr: int, stackLimit: int, incrs: seq<int>)
    requires endAddr > 0 && heapEnd >= 0
    requires forall i :: 0 <= i < |incrs| ==> incrs[i] > 0
    requires forall i :: 0 <= i < |incrs| ==> !Outcomes(heapEnd, endAddr, stackLimit, incrs)[i].enomem
    ensures var outs := Outcomes(heapEnd, endAddr, stackLimit, incrs);
      forall i :: 0 <= i < |incrs| ==> outs[i].result == Start(heapEnd, endAddr) + Sum(incrs[..i])
    ensures var outs := Outcomes(heapEnd, endAddr, stackLimit, incrs);
      forall i :: 0 <= i < |incrs| ==> outs[i].result >= Start(heapEnd, endAddr)
    ensures var outs := Outcomes(heapEnd, endAddr, stackLimit, incrs);
      forall i, j :: 0 <= i < j < |incrs| ==> outs[i].result + incrs[i] <= outs[j].result
    decreases |incrs|
  {
    var outs := Outcomes(heapEnd, endAddr, stackLimit, incrs);
    if incrs != [] {
      var start := Start(heapEnd, endAddr);
      var o := outs[0];
      assert !o.enomem;
      assert o.result == start && o.brk == start + incrs[0];
      var tail := incrs[1..];
      var later := Outcomes(o.brk, endAddr, stackLimit, tail);
      assert outs == [o] + later;
      assert forall i :: 0 <= i < |tail| ==> tail[i] == incrs[i + 1];
      assert forall i :: 0 <= i < |tail| ==> later[i] == outs[i + 1];
      GrantedRegionsAreAdjacent(o.brk, endAddr, stackLimit, tail);
      assert Start(o.brk, endAddr) == start + incrs[0];
      forall i | 0 <= i < |incrs|
        ensures outs[i].result == start + Sum(incrs[..i])
      {
        if i > 0 {
          assert incrs[..i][1..] == tail[..i - 1];
        }
      }
    }
  }

  /** The C library state the stubs touch: the static break of `_sbrk` and
      errno. */
  class Runtime {
    const endAddr: int
    const stackLimit: int
    var heapEnd: int
    var errno: int

    ghost predicate Valid()
      reads this
    {
      0 < endAddr <= stackLimit && heapEnd <= stackLimit
    }

    /** At reset the break is null and errno is 0. */
    constructor (endAddr: int, stackLimit: int)
      requires 0 < endAddr <= stackLimit
      ensures Valid()
      ensures this.endAddr == endAddr && this.stackLimit == stackLimit
      ensures heapEnd == 0 && errno == 0
    {
      this.endAddr := endAddr;
      this.stackLimit := stackLimit;
      heapEnd := 0;
      errno := 0;
    }

    /** `_sbrk`: the break and errno change as SbrkStep says, and the break
        stays at or below the stack limit. */
    method Sbrk(incr: int) returns (r: int)
      requires Valid()
      modifies this
      ensures Valid()
      ensures var o := SbrkStep(old(heapEnd), endAddr, stackLimit, incr);
        heapEnd == o.brk && r == o.result &&
        errno == (if o.enomem then ENOMEM else old(errno))
    {
      if heapEnd == 0 {
        heapEnd := endAddr;
      }
      var prev := heapEnd;
      if heapEnd + incr > stackLimit {
        errno := ENOMEM;
        return SBRK_FAILED;
      }
      heapEnd := heapEnd + incr;
      return prev;
    }

    /** `_kill`: always fails with EINVAL. */
    method Kill(pid: int, sig: int) returns (r: int)
      modifies this
      ensures r == -1 && errno == EINVAL && heapEnd == old(heapEnd)
    {
      errno := EINVAL;
      return -1;
    }
  }

  /** The part of `struct stat` that `_fstat` writes. */
  class Stat {
    var stMode: int

    constructor ()
    {
    }
  }

  /** `_fstat`: every file is a character device. */
  method Fstat(file: int, st: Stat) returns (r: int)
    modifies st
    ensures st.stMode == S_IFCHR && r == 0
  {
    st.stMode := S_IFCHR;
    return 0;
  }

  /** `_close`: closing is not supported. */
  function Close(file: int): (r: int)
    ensures r == -1
  {
    -1
  }

  /** `_isatty`: every file is a terminal. */
  function Isatty(file: int): (r: int)
    ensures r == 1
  {
    1
  }

  /** `_lseek`: the position is always 0. */
  function Lseek(file: int, ptr: int, dir: int): (r: int)
    ensures r == 0
  {
    0
  }

  /** `_read`: every read is at end of file. */
  function Read(file: int, ptr: int, len: int): (r: int)
    ensures r == 0
  {
    0
  }

  /** `_getpid`: there is one process. */
  function Getpid(): (r: int)
    ensures r == 1
  {
    1
  }

  /** The constant stubs ignore their arguments. */
  lemma StubsIgnoreArguments(f: int, g: int, p: int, q: int, d: int, e: int)
    ensures Close(f) == Close(g)
    ensures Isatty(f) == Isatty(g)
    ensures Lseek(f, p, d) == Lseek(g, q, e)
    ensures Read(f, p, d) == Read(g, q, e)
  {
  }
}
