/** Port names: the packing macros and the user-reference limits of ipc/port.h. */
module MachPort {

  /** mach_port_t: an unsigned 32-bit word. */
  type Name = n: nat | n < 0x1_0000_0000

  const NULL: Name := 0
  const DEAD: Name := 0xffff_ffff

  /** The boundary values handed to the splay primitives. */
  const SMALLEST: Name := 0
  const LARGEST: Name := 0xffff_ffff

  /** Generations are kept here as 0..255; the source keeps them shifted to the top byte. */
  const GENERATIONS := 0x100
  const INDICES := 0x100_0000

  /** MACH_PORT_INDEX, MACH_PORT_GEN and MACH_PORT_MAKE. */
  function Index(n: Name): (i: nat)
    ensures i < INDICES
  {
    n / GENERATIONS
  }

  function Gen(n: Name): (g: nat)
    ensures g < GENERATIONS
  {
    n % GENERATIONS
  }

  function Make(i: nat, g: nat): (n: Name)
    requires i < INDICES && g < GENERATIONS
    ensures Index(n) == i && Gen(n) == g
  {
    i * GENERATIONS + g
  }

  predicate IsValid(n: Name) {
    n != NULL && n != DEAD
  }

  lemma MakeOfParts(n: Name)
    ensures Make(Index(n), Gen(n)) == n
  {
  }

  /** Names are ordered first by index, then by generation. */
  lemma OrderOfNames(a: Name, b: Name)
    ensures a < b <==> Index(a) < Index(b) || (Index(a) == Index(b) && Gen(a) < Gen(b))
  {
  }

  /** Objects are opaque ids; 0 is the null object. */
  type Object = nat
  const IO_NULL: Object := 0

  datatype Kind = None | Send | Receive | SendReceive | SendOnce | PortSet | DeadName

  /** What an entry says about the right it names: type, user references, object and dead-name request. */
  datatype Right = Right(kind: Kind, urefs: nat, obj: Object, request: nat)

  const NO_RIGHT := Right(None, 0, IO_NULL, 0)
}
