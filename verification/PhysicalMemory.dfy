/** Physical memory, page by page: an address absent from both maps is a page of zeros. */
module PhysicalMemory {

  const SLOTS: nat := 512

  function Zeros(n: nat): (z: seq<nat>)
    ensures |z| == n && forall i :: 0 <= i < n ==> z[i] == 0
  {
    if n == 0 then [] else Zeros(n - 1) + [0]
  }

  type Table = t: seq<nat> | |t| == SLOTS witness Zeros(SLOTS)

  /** Tables by page; a page that is absent holds zeros. */
  type Tables = map<nat, Table>

  type Bytes = map<nat, seq<nat>>

  function PageBytes(data: Bytes, p: nat): seq<nat>
  {
    if p in data then data[p] else []
  }

  /** Bytes beyond what was written are zero. */
  function ByteOf(page: seq<nat>, j: nat): nat
  {
    if j < |page| then page[j] else 0
  }

  function Overwrite(page: seq<nat>, at: nat, bytes: seq<nat>): (r: seq<nat>)
    ensures forall j :: 0 <= j ==> ByteOf(r, j) == if at <= j < at + |bytes| then bytes[j - at] else ByteOf(page, j)
  {
    (if |page| <= at then page + Zeros(at - |page|) else page[..at]) + bytes
    + (if at + |bytes| < |page| then page[at + |bytes|..] else [])
  }

  /** The listed pages hold the bytes they held before. */
  ghost predicate SameBytes(before: Bytes, after: Bytes, pages: set<nat>)
  {
    forall p {:trigger PageBytes(after, p)} :: p in pages ==> PageBytes(after, p) == PageBytes(before, p)
  }

  class Memory {
    // Pages used as page tables (512 words) and as plain bytes (4096 of them).
    var tables: Tables
    var data: Bytes

    constructor ()
      ensures tables == map[] && data == map[]
    {
      tables, data := map[], map[];
    }

    /** memset(page, 0, PAGE_SIZE) */
    method Zero(page: nat)
      modifies this
      ensures tables == old(tables) - {page} && data == old(data) - {page}
    {
      tables, data := tables - {page}, data - {page};
    }

    /** memcpy into a page */
    method CopyInto(page: nat, at: nat, bytes: seq<nat>)
      modifies `data
      ensures data == old(data)[page := Overwrite(PageBytes(old(data), page), at, bytes)]
    {
      data := data[page := Overwrite(PageBytes(data, page), at, bytes)];
    }
  }
}
