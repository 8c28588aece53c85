/** The benchmark's list cells, their data items, and the two comparison functions, which write as they read. */
module ListCells {
  import opened Arithmetic
  import opened Collections
  import opened Crc
  import opened MergeOrder

  type U16 = x: int | 0 <= x < 0x10000

  type S16 = x: int | -0x8000 <= x < 0x8000

  /** `data16` is held as its 16-bit pattern: the upper byte backs up the original data, bit 7 says that the
      lower seven bits are a cached result. */
  class ListData {
    var data16: U16
    var idx: S16

    constructor (data16: U16, idx: S16)
      ensures this.data16 == data16 && this.idx == idx
    {
      this.data16 := data16;
      this.idx := idx;
    }
  }

  class Cell {
    var next: Cell?
    var info: ListData

    constructor (info: ListData)
      ensures this.info == info && next == null
    {
      this.info := info;
      next := null;
    }
  }

  class Results {
    var crc: Word
    var crclist: Word
    var crcstate: U16
    var crcmatrix: U16

    constructor ()
      ensures crc == crclist == Zeros(16) && crcstate == crcmatrix == 0
    {
      crc, crclist := Zeros(16), Zeros(16);
      crcstate, crcmatrix := 0, 0;
    }
  }

  // ----- fields of a data word

  function High(data: U16): U16 {
    data / 256
  }

  function Low(data: U16): U16 {
    data % 256
  }

  /** The upper byte twice. */
  function Rebuilt(data: U16): U16 {
    257 * High(data)
  }

  predicate Cached(data: U16) {
    (data / 128) % 2 == 1
  }

  function Value(data: U16): U16 {
    data % 128
  }

  /** The bit pattern of a 16-bit number, least significant bit first. */
  function ToWord(n: U16): Word {
    LowBits(n, 16)
  }

  lemma CachedFields(data: U16, value: U16)
    requires value < 128
    ensures var d := 256 * (data / 256) + 128 + value;
            0 <= d < 0x10000 && High(d) == High(data) && Cached(d) && Value(d) == value
  {
  }

  /** The fields of a data word: its upper byte, whether a result is cached, and the value below that flag. A word
      without a cached result stands for a kernel when its lowest three bits are 0 or 1. */
  lemma FieldsAre(high: nat, flag: nat, value: nat)
    requires high < 256 && flag < 2 && value < 128
    ensures var data := 256 * high + 128 * flag + value;
            && data < 0x10000 && High(data) == high && Low(data) == 128 * flag + value
            && Rebuilt(data) == 256 * high + high
            && (Cached(data) <==> flag == 1) && Value(data) == value
            && (UsesKernel(data) <==> flag == 0 && value % 8 <= 1)
  {
    RemainderIs(high, 256, 128 * flag + value);
    RemainderIs(2 * high + flag, 128, value);
    RemainderIs(high, 2, flag);
    RemainderIs(32 * high + 16 * flag + value / 8, 8, value % 8);
  }

  /** The kernel a data word stands for, and the data type it is run with. */
  datatype Operation = StateRun(dtype: int) | MatrixRun(dtype: int)

  /** The four bits above the lowest three, twice; the state machine is given 0x22 at least. */
  function OperationOf(data: U16): Operation {
    var dtype := 17 * (data / 8 % 16);
    if data % 8 == 0 then StateRun(Max(0x22, dtype)) else MatrixRun(dtype)
  }

  /** What a benchmark kernel returns when it is run for an item: any 16-bit result. */
  type Kernel = (ListData, Operation) -> U16

  /** The operation is one of the two kernels, not the plain data word. */
  predicate UsesKernel(data: U16) {
    !Cached(data) && data % 8 <= 1
  }

  /** The value an item has, or will have once it is computed. */
  function DestinedValue(kernel: Kernel, d: ListData, data: U16): U16 {
    if UsesKernel(data) then Value(kernel(d, OperationOf(data))) else Value(data)
  }

  /** The first result of a kernel that is not zero is kept. */
  function Kept(before: U16, result: U16): U16 {
    if before == 0 then result else before
  }

  /** The cached result if there is one; otherwise an operation selected by the low bits is performed, its
      result folded into the running CRC and cached. */
  method CalcFunc(d: ListData, res: Results, kernel: Kernel) returns (retval: U16)
    modifies d`data16, res`crc, res`crcstate, res`crcmatrix
    ensures Cached(d.data16) && retval == Value(d.data16) == DestinedValue(kernel, d, old(d.data16))
    ensures High(d.data16) == High(old(d.data16))
    ensures old(Cached(d.data16)) ==>
              && d.data16 == old(d.data16) && res.crc == old(res.crc)
              && res.crcstate == old(res.crcstate) && res.crcmatrix == old(res.crcmatrix)
    ensures !old(Cached(d.data16)) ==>
              var flag, result := old(d.data16) % 8, kernel(d, OperationOf(old(d.data16)));
              && res.crcstate == (if flag == 0 then Kept(old(res.crcstate), result) else old(res.crcstate))
              && res.crcmatrix == (if flag == 1 then Kept(old(res.crcmatrix), result) else old(res.crcmatrix))
    ensures !old(Cached(d.data16)) ==>
              var raw := if old(UsesKernel(d.data16)) then kernel(d, OperationOf(old(d.data16))) else old(d.data16);
              res.crc == Run(old(res.crc), ToWord(raw))
  {
    hide Run, ToWord;
    var data := d.data16;
    if Cached(data) {
      return data % 128;
    }
    var flag := data % 8;
    var dtype := (data / 8) % 16;
    dtype := dtype + dtype * 16;
    if flag == 0 {
      if dtype < 0x22 {
        dtype := 0x22;
      }
      retval := StateKernel(dtype, d, kernel);
      if res.crcstate == 0 {
        res.crcstate := retval;
      }
    } else if flag == 1 {
      retval := MatrixKernel(dtype, d, kernel);
      if res.crcmatrix == 0 {
        res.crcmatrix := retval;
      }
    } else {
      retval := data;
    }
    res.crc := CrcU16(ToWord(retval), res.crc);
    retval := retval % 128;
    CachedFields(data, retval);
    d.data16 := 256 * (data / 256) + 128 + retval;
  }

  /** Stands for the state-machine kernel. */
  method StateKernel(dtype: int, d: ListData, kernel: Kernel) returns (r: U16)
    requires 0x22 <= dtype <= 0xff
    ensures r == kernel(d, StateRun(dtype))
  {
    r := kernel(d, StateRun(dtype));
  }

  /** Stands for the matrix kernel. */
  method MatrixKernel(dtype: int, d: ListData, kernel: Kernel) returns (r: U16)
    requires 0 <= dtype <= 0xff
    ensures r == kernel(d, MatrixRun(dtype))
  {
    r := kernel(d, MatrixRun(dtype));
  }

  /** The comparison a sort is called with: by value with caching, or by index with regeneration. */
  datatype Order = ByValue(res: Results, kernel: Kernel) | ByIndex

  /** The key an item is sorted by. Comparing items never changes it. */
  function KeyOf(order: Order, d: ListData): int
    reads d
  {
    if order.ByValue? then DestinedValue(order.kernel, d, d.data16) else d.idx
  }

  /** The item shows its key, and comparing it again will not change it. */
  predicate Settled(order: Order, d: ListData)
    reads d
  {
    if order.ByValue? then Cached(d.data16) else Low(d.data16) == High(d.data16)
  }

  function MarkOf(order: Order, d: ListData): Mark
    reads d
  {
    Mark(Settled(order, d), KeyOf(order, d))
  }

  function Footprint(order: Order): set<Results> {
    if order.ByValue? then {order.res} else {}
  }

  method CmpComplex(a: ListData, b: ListData, res: Results, kernel: Kernel) returns (r: int)
    requires a != b
    modifies a`data16, b`data16, res`crc, res`crcstate, res`crcmatrix
    ensures Cached(a.data16) && Cached(b.data16)
    ensures Value(a.data16) == DestinedValue(kernel, a, old(a.data16))
    ensures Value(b.data16) == DestinedValue(kernel, b, old(b.data16))
    ensures High(a.data16) == High(old(a.data16)) && High(b.data16) == High(old(b.data16))
    ensures old(Cached(a.data16)) ==> a.data16 == old(a.data16)
    ensures old(Cached(b.data16)) ==> b.data16 == old(b.data16)
    ensures r == Value(a.data16) - Value(b.data16)
  {
    var val1: int := CalcFunc(a, res, kernel);
    var val2: int := CalcFunc(b, res, kernel);
    r := val1 - val2;
  }

  /** Called without results, as the benchmark always does, it rebuilds the lower byte from the upper one. */
  method CmpIdx(a: ListData, b: ListData, res: Results?) returns (r: int)
    requires a != b
    modifies a`data16, b`data16
    ensures res == null ==> a.data16 == Rebuilt(old(a.data16)) && b.data16 == Rebuilt(old(b.data16))
    ensures res != null ==> a.data16 == old(a.data16) && b.data16 == old(b.data16)
    ensures r == a.idx - b.idx
  {
    if res == null {
      a.data16 := 256 * (a.data16 / 256) + a.data16 / 256;
      b.data16 := 256 * (b.data16 / 256) + b.data16 / 256;
    }
    r := a.idx - b.idx;
  }

  method Compare(order: Order, a: ListData, b: ListData) returns (r: int)
    requires a != b
    modifies a`data16, b`data16, Footprint(order)`crc, Footprint(order)`crcstate, Footprint(order)`crcmatrix
    ensures Settled(order, a) && Settled(order, b)
    ensures KeyOf(order, a) == old(KeyOf(order, a)) && KeyOf(order, b) == old(KeyOf(order, b))
    ensures old(Settled(order, a)) ==> a.data16 == old(a.data16)
    ensures old(Settled(order, b)) ==> b.data16 == old(b.data16)
    ensures High(a.data16) == High(old(a.data16)) && High(b.data16) == High(old(b.data16))
    ensures r <= 0 <==> KeyOf(order, a) <= KeyOf(order, b)
  {
    match order
    case ByValue(res, kernel) => r := CmpComplex(a, b, res, kernel);
    case ByIndex => r := CmpIdx(a, b, null);
  }

  // ----- linked lists

  ghost function NodeAt(cells: seq<Cell>, i: int): Cell? {
    if 0 <= i < |cells| then cells[i] else null
  }

  /** From position `from` on, each cell's link leads to the next cell. */
  ghost predicate Chained(cells: seq<Cell>, from: int)
    reads cells`next
  {
    forall k {:trigger cells[k].next} :: 0 <= from <= k < |cells| ==> cells[k].next == NodeAt(cells, k + 1)
  }

  ghost predicate IsList(head: Cell?, cells: seq<Cell>)
    reads cells`next
  {
    Distinct(cells) && head == NodeAt(cells, 0) && Chained(cells, 0)
  }

  ghost predicate InfosApart(cells: seq<Cell>)
    reads cells`info
  {
    forall i, j :: 0 <= i < j < |cells| ==> cells[i].info != cells[j].info
  }

  ghost function Infos(cells: seq<Cell>): set<ListData>
    reads cells`info
  {
    set i | 0 <= i < |cells| :: cells[i].info
  }

  /** The cells still hold the same data items, all different. */
  twostate predicate SameInfos(cells: seq<Cell>)
    reads cells`info
  {
    InfosApart(cells) && Infos(cells) == old(Infos(cells))
  }

  /** What sorting never changes about a cell: its data item, and that item's index and upper byte. */
  datatype Record = Record(info: ListData, idx: S16, high: U16)

  ghost function RecordOf(cell: Cell): Record
    reads cell`info, cell.info
  {
    Record(cell.info, cell.info.idx, High(cell.info.data16))
  }

  type Records = map<Cell, Record>

  ghost predicate Holds(cells: seq<Cell>, records: Records)
    reads cells`info, Infos(cells)
  {
    forall i :: 0 <= i < |cells| ==> cells[i] in records && records[cells[i]] == RecordOf(cells[i])
  }

  ghost predicate Agrees(order: Order, cells: seq<Cell>, marks: Marks<Cell>)
    reads cells`info, Infos(cells)
  {
    forall i :: 0 <= i < |cells| ==> cells[i] in marks && marks[cells[i]] == MarkOf(order, cells[i].info)
  }
}
