/** The serial EEPROM behind the driver: a byte array programmed page by page.

    While a page is being programmed the Write-In-Progress bit is set; the device then ignores
    further writes and answers reads with arbitrary bytes.  A write that runs past the end of a
    page wraps to the start of the same page, because only the low address bits are counted up. */
module EepDevice {
  import opened Arith
  import opened Common

  datatype Device = Device(mem: seq<byte>, page: nat, wip: bool) {
    /** The array is made of whole pages. */
    predicate Valid() {
      page > 0 && |mem| % page == 0
    }
  }

  /** The instruction bytes that the device understands. */
  const WRITE_INSTRUCTION: byte := 0x02
  const READ_INSTRUCTION: byte := 0x03
  const READ_STATUS_INSTRUCTION: byte := 0x05

  /** The internal address counter: it never leaves the page it started in. */
  function NextInPage(a: nat, page: nat): (b: nat)
    requires page > 0
  {
    if (a + 1) % page == 0 then a + 1 - page else a + 1
  }

  /** Writes `data` byte by byte from address `a`, wrapping inside the page. */
  function Program(mem: seq<byte>, page: nat, a: nat, data: seq<byte>): (r: seq<byte>)
    requires page > 0 && |mem| % page == 0 && a < |mem|
    ensures |r| == |mem|
    decreases |data|
  {
    if data == [] then mem
    else
      PageOfCapacity(|mem|, page, a);
      Program(mem[a := data[0]], page, NextInPage(a, page), data[1..])
  }

  /** `mem` with the bytes from `a` on replaced by `data`. */
  function Splice(mem: seq<byte>, a: nat, data: seq<byte>): (r: seq<byte>)
    requires a + |data| <= |mem|
  {
    mem[..a] + data + mem[a + |data|..]
  }

  /** A read streams consecutive addresses and rolls over at the end of the array. */
  function ReadBytes(mem: seq<byte>, a: nat, n: nat): (r: seq<byte>)
    requires |mem| > 0
  {
    seq(n, i requires 0 <= i => mem[(a + i) % |mem|])
  }

  lemma PageOfCapacity(capacity: nat, page: nat, a: nat)
    requires page > 0 && capacity % page == 0 && a < capacity
    ensures NextInPage(a, page) < capacity
  {
  }

  /** Data that fits in the rest of the page is stored contiguously and nothing else changes. */
  lemma {:induction false} ProgramWithinPage(mem: seq<byte>, page: nat, a: nat, data: seq<byte>)
    requires page > 0 && |mem| % page == 0 && a < |mem|
    requires |data| <= page - a % page
    ensures a + |data| <= |mem|
    ensures Program(mem, page, a, data) == Splice(mem, a, data)
    decreases |data|
  {
    if data == [] {
    } else if |data| == 1 {
      assert Program(mem, page, a, data) == mem[a := data[0]];
      assert mem[a := data[0]] == Splice(mem, a, data);
    } else {
      ModSucc(a, page);
      PageOfCapacity(|mem|, page, a);
      var mem1 := mem[a := data[0]];
      ProgramWithinPage(mem1, page, a + 1, data[1..]);
      assert Splice(mem1, a + 1, data[1..]) == Splice(mem, a, data);
    }
  }

  /** Splicing a block and then the block behind it is splicing both at once. */
  lemma SpliceAppend(mem: seq<byte>, a: nat, d1: seq<byte>, d2: seq<byte>)
    requires a + |d1| + |d2| <= |mem|
    ensures Splice(Splice(mem, a, d1), a + |d1|, d2) == Splice(mem, a, d1 + d2)
  {
  }

  lemma ReadInRange(mem: seq<byte>, a: nat, n: nat)
    requires a + n <= |mem| && |mem| > 0
    ensures ReadBytes(mem, a, n) == mem[a..a + n]
  {
    forall i | 0 <= i < n
      ensures ReadBytes(mem, a, n)[i] == mem[a..a + n][i]
    {
      ModSmall(a + i, |mem|);
    }
  }
}
