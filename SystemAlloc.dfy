/** The first-level allocator `__malloc_alloc_template<0>` (`malloc_alloc`):
    a thin layer over the system allocator with a swappable out-of-memory
    handler.

    The system allocator itself is foreign code. It is modelled as a supply
    of fresh addresses: `top` is the next address it hands out (every region
    handed out so far lies below it) and `avail` is how many more bytes it
    can supply before `std::malloc` returns null. Addresses are integers and
    0 is the null pointer; the out-of-memory handler is an opaque non-zero
    identifier, 0 being the null function pointer. */
module SystemAlloc {

  /** What a request to `malloc_alloc` yields: a non-null pointer, or one of
      the two ways `oom_malloc` continues when the system is exhausted. */
  datatype Outcome =
    | Ptr(addr: int)
      /** No handler installed: `__THROW_BAD_ALLOC` reports and calls `exit(1)`. */
    | Exit
      /** A handler is installed: the source keeps calling it and retrying,
          and whether that ever succeeds depends on the handler's own code. */
    | HandlerLoop

  /** The state the first-level allocator depends on. */
  datatype Sys = Sys(top: int, avail: nat, handler: int)

  ghost predicate SysValid(s: Sys) {
    s.top > 0
  }

  /** The state at program start: no handler (alloc.h:46-47). */
  function InitialSys(base: int, supply: nat): (s: Sys)
    requires base > 0
    ensures SysValid(s) && s.handler == 0
  {
    Sys(base, supply, 0)
  }

  /** `std::malloc(n)`: the pair of the new system state and the pointer
      (0 when the system cannot supply `n` bytes). */
  function SystemMalloc(s: Sys, n: nat): (r: (Sys, int))
    requires SysValid(s)
    ensures SysValid(r.0) && r.0.handler == s.handler
    ensures r.1 == 0 <==> n > s.avail
    ensures r.1 != 0 ==> r.1 == s.top && r.0.top == s.top + n && r.0.avail + n == s.avail
    ensures r.1 == 0 ==> r.0 == s
  {
    if n <= s.avail then (s.(top := s.top + n, avail := s.avail - n), s.top)
    else (s, 0)
  }

  /** `std::free(p)`: the bytes become available to the system again. */
  function SystemFree(s: Sys, n: nat): (r: Sys)
    ensures r.avail == s.avail + n && r.top == s.top && r.handler == s.handler
  {
    s.(avail := s.avail + n)
  }

  /** What `oom_malloc` does once the system has refused a request
      (alloc.h:54-62): exit without a handler, loop on the handler with one. */
  function OomOutcome(s: Sys): (o: Outcome)
    ensures o == Exit <==> s.handler == 0
    ensures !o.Ptr?
  {
    if s.handler == 0 then Exit else HandlerLoop
  }

  /** `malloc_alloc::allocate(n)` (alloc.h:26-30). */
  function MallocAllocate(s: Sys, n: nat): (r: (Sys, Outcome))
    requires SysValid(s)
    ensures SysValid(r.0) && r.0.handler == s.handler
    ensures n <= s.avail ==> r.1 == Ptr(s.top) && r.0 == s.(top := s.top + n, avail := s.avail - n)
    ensures n > s.avail ==> r.1 == OomOutcome(s) && r.0 == s
    ensures r.1.Ptr? ==> r.1.addr > 0
  {
    var (s', p) := SystemMalloc(s, n);
    if p == 0 then (s', OomOutcome(s')) else (s', Ptr(p))
  }

  /** `set_malloc_handler(f)` (alloc.h:39-43): the new state and the handler
      that was installed before. */
  function SetMallocHandler(s: Sys, f: int): (r: (Sys, int))
    ensures r.0.handler == f && r.1 == s.handler
    ensures r.0.top == s.top && r.0.avail == s.avail
  {
    (s.(handler := f), s.handler)
  }

  /** Installing the handler that `set_malloc_handler` returned restores
      the state exactly: the install-and-restore idiom. */
  lemma SetHandlerRestore(s: Sys, f: int)
    ensures var (s1, prev) := SetMallocHandler(s, f);
            SetMallocHandler(s1, prev) == (s, f)
  {
  }

  /** Two successive successful system requests return disjoint regions:
      the second starts where the first ends. */
  lemma {:induction false} SuccessiveMallocsDisjoint(s: Sys, m: nat, n: nat)
    requires SysValid(s) && m + n <= s.avail
    ensures var (s1, p) := SystemMalloc(s, m);
            var (s2, q) := SystemMalloc(s1, n);
            p != 0 && q != 0 && p + m <= q
  {
  }

  /** The first-level allocator's global state (the static handler) and the
      system behind it. */
  class MallocAlloc {
    var top: int
    var avail: nat
    /** `__malloc_alloc_oom_handler` */
    var handler: int

    ghost predicate Valid()
      reads this
    {
      SysValid(State())
    }

    ghost function State(): Sys
      reads this
    {
      Sys(top, avail, handler)
    }

    /** Program start: the handler is null (alloc.h:46-47). */
    constructor (base: int, supply: nat)
      requires base > 0
      ensures Valid() && State() == InitialSys(base, supply)
    {
      top, avail, handler := base, supply, 0;
    }

    /** `std::malloc` */
    method SystemMallocCall(n: nat) returns (p: int)
      requires Valid()
      modifies this
      ensures Valid()
      ensures (State(), p) == SystemMalloc(old(State()), n)
    {
      if n <= avail {
        p := top;
        top, avail := top + n, avail - n;
      } else {
        p := 0;
      }
    }

    /** `malloc_alloc::allocate` (alloc.h:26-30); the handler-retry loop of
        `oom_malloc` is summarised by its outcome. */
    method Allocate(n: nat) returns (r: Outcome)
      requires Valid()
      modifies this
      ensures Valid()
      ensures (State(), r) == MallocAllocate(old(State()), n)
    {
      var p := SystemMallocCall(n);
      if p == 0 {
        r := if handler == 0 then Exit else HandlerLoop;
      } else {
        r := Ptr(p);
      }
    }

    /** `malloc_alloc::deallocate` (alloc.h:31) */
    method Deallocate(p: int, n: nat)
      requires Valid()
      modifies this
      ensures Valid()
      ensures State() == SystemFree(old(State()), n)
    {
      avail := avail + n;
    }

    /** `set_malloc_handler` (alloc.h:39-43) */
    method SetHandler(f: int) returns (prev: int)
      modifies this
      ensures (State(), prev) == SetMallocHandler(old(State()), f)
      ensures Valid() <==> old(Valid())
    {
      prev := handler;
      handler := f;
    }
  }
}
