/** The menu grid of `draw_tasks` (src/main.rs:509-540): the displayed
    group's child groups and tasks laid out column by column in 20-column
    cells, with long names shortened. Colours and the terminal itself are
    left out; the terminal width is a parameter. */
module Layout {
  import opened Entities

  // ------------------------------------------------------------ the items

  /** `DrawItem` (src/main.rs:414-433): a child group or a task. */
  datatype DrawItem = GroupItem(group: Group) | TaskItem(task: Task)
  {
    function Key(): char {
      match this
      case GroupItem(g) => g.key
      case TaskItem(t) => t.key
    }

    function Name(): string {
      match this
      case GroupItem(g) => g.name
      case TaskItem(t) => t.name
    }
  }

  /** The items drawn for a group: its child groups, then its tasks. */
  function DrawItems(g: Group): (r: seq<DrawItem>)
    ensures |r| == |g.groups| + |g.tasks|
    ensures forall i :: 0 <= i < |g.groups| ==> r[i] == GroupItem(g.groups[i])
    ensures forall i :: 0 <= i < |g.tasks| ==> r[|g.groups| + i] == TaskItem(g.tasks[i])
  {
    seq(|g.groups|, i requires 0 <= i < |g.groups| => GroupItem(g.groups[i])) +
    seq(|g.tasks|, i requires 0 <= i < |g.tasks| => TaskItem(g.tasks[i]))
  }

  // ------------------------------------------------------- grid arithmetic

  /** `columns_fit`: how many 20-column cells fit beside a 4-column margin.
      The terminal width is a `u16`; below 24 the source divides by zero in
      `div_ceil`, below 4 the subtraction underflows. */
  function ColumnsFit(width: nat): (r: nat)
    requires 24 <= width < 0x1_0000
    ensures 1 <= r
    ensures 4 + 20 * r <= width < 4 + 20 * (r + 1)
  {
    (width - 4) / 20
  }

  /** `usize::div_ceil`. */
  function DivCeil(n: nat, d: nat): (r: nat)
    requires d >= 1
    ensures n <= r * d
    ensures n > 0 ==> (r - 1) * d < n
    ensures n == 0 ==> r == 0
  {
    var q := n / d;
    assert n == q * d + n % d;
    assert (q + 1) * d == q * d + d;
    if n % d > 0 then q + 1 else q
  }

  function Min(a: int, b: int): int {
    if a < b then a else b
  }

  lemma MulMonotone(a: nat, b: nat, c: nat)
    requires a <= b
    ensures a * c <= b * c
  {
    assert b * c == a * c + (b - a) * c;
  }

  lemma DivCeilStep(n: nat, d: nat)
    requires d >= 1 && n > d
    ensures DivCeil(n, d) == 1 + DivCeil(n - d, d)
  {
    var r, r' := DivCeil(n, d), DivCeil(n - d, d);
    assert (r' + 1) * d == r' * d + d;
    assert (r - 1) * d == r * d - d;
    if r < r' + 1 {
      MulMonotone(r, r', d);
    } else if r > r' + 1 {
      MulMonotone(r' + 1, r - 1, d);
    }
  }

  /** `slice::chunks(size)`: consecutive runs of `size` elements, the last
      one possibly shorter. */
  function Chunks<T>(s: seq<T>, size: nat): seq<seq<T>>
    requires size >= 1
    decreases |s|
  {
    if s == [] then []
    else if |s| <= size then [s]
    else [s[..size]] + Chunks(s[size..], size)
  }

  /** There are `n / size` chunks, rounded up. */
  lemma {:induction false} ChunksLength<T>(s: seq<T>, size: nat)
    requires size >= 1
    ensures |Chunks(s, size)| == DivCeil(|s|, size)
    decreases |s|
  {
    if s == [] {
    } else if |s| <= size {
      assert DivCeil(|s|, size) == 1;
    } else {
      ChunksLength(s[size..], size);
      DivCeilStep(|s|, size);
    }
  }

  lemma MulSucc(c: nat, size: nat)
    ensures (c + 1) * size == c * size + size
  {
  }

  /** Chunk `c` holds the elements from `c * size` on, `size` of them or
      up to the end. */
  lemma {:induction false} ChunkAt<T>(s: seq<T>, size: nat, c: nat)
    requires size >= 1 && c < |Chunks(s, size)|
    ensures c * size < |s| && Chunks(s, size)[c] == s[c * size .. Min(c * size + size, |s|)]
    decreases c
  {
    if c > 0 {
      assert |s| > size;
      var t := s[size..];
      assert Chunks(s, size)[c] == Chunks(t, size)[c - 1];
      ChunkAt(t, size, c - 1);
      MulSucc(c - 1, size);
      var lo := (c - 1) * size;
      assert lo + size == c * size;
      assert t[lo .. Min(lo + size, |t|)] == s[lo + size .. Min(lo + size + size, |s|)];
    }
  }

  function Concat<T>(ss: seq<seq<T>>): seq<T>
    decreases |ss|
  {
    if ss == [] then [] else ss[0] + Concat(ss[1..])
  }

  /** The chunks, put back together, are the slice. */
  lemma {:induction false} ChunksConcat<T>(s: seq<T>, size: nat)
    requires size >= 1
    ensures Concat(Chunks(s, size)) == s
    decreases |s|
  {
    if |s| > size {
      ChunksConcat(s[size..], size);
      assert s[..size] + s[size..] == s;
    } else if s != [] {
      assert Chunks(s, size)[1..] == [];
      assert s + [] == s;
    }
  }

  /** There are never more columns than fit on the screen. */
  lemma ColumnsFitScreen(n: nat, width: nat)
    requires 24 <= width < 0x1_0000 && n >= 1
    ensures DivCeil(n, DivCeil(n, ColumnsFit(width))) <= ColumnsFit(width)
  {
    var fit := ColumnsFit(width);
    var rows := DivCeil(n, fit);
    var cols := DivCeil(n, rows);
    MulCancel(cols - 1, fit, rows);
  }

  lemma MulCancel(a: int, b: nat, c: nat)
    requires c >= 1 && a * c < b * c
    ensures a < b
  {
    assert (b - a) * c > 0;
  }

  // --------------------------------------------------------- name display

  /** Number of bytes of `s` in UTF-8: what Rust's `str::len` counts. */
  function Utf8Len(s: string): (r: nat)
    ensures |s| <= r <= 4 * |s|
    decreases |s|
  {
    if s == [] then 0
    else
      var c := s[|s| - 1] as int;
      var n := if c < 0x80 then 1 else if c < 0x800 then 2 else if c < 0x1_0000 then 3 else 4;
      Utf8Len(s[..|s| - 1]) + n
  }

  predicate Ascii(s: string) {
    forall i :: 0 <= i < |s| ==> s[i] as int < 0x80
  }

  lemma {:induction false} AsciiUtf8Len(s: string)
    requires Ascii(s)
    ensures Utf8Len(s) == |s|
    decreases |s|
  {
    if s != [] {
      AsciiUtf8Len(s[..|s| - 1]);
    }
  }

  /** The name as the source draws it: when its UTF-8 length exceeds 12
      bytes, its first 11 characters and an ellipsis. */
  function DisplayNameAsWritten(name: string): (r: string)
    ensures |r| <= 12
    ensures Utf8Len(name) <= 12 ==> r == name
    ensures Utf8Len(name) > 12 ==> r == name[..Min(11, |name|)] + "…"
  {
    if Utf8Len(name) > 12 then name[..Min(11, |name|)] + "…" else name
  }

  /** Characters of two bytes in UTF-8, such as the accented letters of
      Latin scripts. */
  predicate TwoByte(s: string) {
    forall i :: 0 <= i < |s| ==> 0x80 <= s[i] as int < 0x800
  }

  lemma {:induction false} TwoByteUtf8Len(s: string)
    requires TwoByte(s)
    ensures Utf8Len(s) == 2 * |s|
    decreases |s|
  {
    if s != [] {
      TwoByteUtf8Len(s[..|s| - 1]);
    }
  }

  /** A name of 7 to 12 two-byte characters fits the 12-column field, yet
      the source shortens it or appends an ellipsis to it. */
  lemma NonAsciiNameMarred(name: string)
    requires TwoByte(name) && 7 <= |name| <= 12
    ensures DisplayNameAsWritten(name) != name
    ensures DisplayName(name) == name
  {
    TwoByteUtf8Len(name);
    assert |DisplayNameAsWritten(name)| == Min(11, |name|) + 1;
  }

  /** Seven `é`s: all seven are drawn, followed by an ellipsis. */
  lemma EllipsisWithoutCut()
    ensures DisplayNameAsWritten("ééééééé") == "ééééééé" + "…"
  {
    TwoByteUtf8Len("ééééééé");
    assert "ééééééé"[..Min(11, 7)] == "ééééééé";
  }

  /** The name shortened by its length in characters: names that fit the
      12-column field are drawn whole; longer ones keep their first 11
      characters followed by an ellipsis. */
  function DisplayName(name: string): (r: string)
    ensures |r| <= 12
    ensures r == name <==> |name| <= 12
    ensures |name| > 12 ==> |r| == 12 && r[..11] == name[..11] && r[11] == '…'
  {
    if |name| > 12 then name[..11] + "…" else name
  }

  /** For ASCII names both definitions agree. */
  lemma DisplayNameAscii(name: string)
    requires Ascii(name)
    ensures DisplayNameAsWritten(name) == DisplayName(name)
  {
    AsciiUtf8Len(name);
  }

  // -------------------------------------------------------------- the grid

  /** One drawn cell: the key, the name as the source shortens it, and
      whether the item is a group (drawn in blue) or a task (drawn in
      green). */
  datatype Cell = Cell(key: char, name: string, isGroup: bool)

  function CellOf(item: DrawItem): (r: Cell)
    ensures r.key == item.Key() && r.isGroup == item.GroupItem?
    ensures r.name == DisplayNameAsWritten(item.Name()) && |r.name| <= 12
  {
    Cell(item.Key(), DisplayNameAsWritten(item.Name()), item.GroupItem?)
  }

  /** Line `i` of the grid shows row `i` of each column, from the first
      column up to the first one too short to have a row `i`. */
  ghost predicate LineOf(line: seq<Cell>, columns: seq<seq<DrawItem>>, i: nat) {
    && |line| <= |columns|
    && (forall c :: 0 <= c < |line| ==> i < |columns[c]| && line[c] == CellOf(columns[c][i]))
    && (|line| == |columns| || i >= |columns[|line|]|)
  }

  /** The drawing loops of `draw_tasks`: the items cut into columns of
      `rows` items, then drawn line by line. */
  method DrawGrid(items: seq<DrawItem>, width: nat) returns (lines: seq<seq<Cell>>)
    requires 24 <= width < 0x1_0000 && |items| >= 1
    ensures |lines| == DivCeil(|items|, ColumnsFit(width))
    ensures forall i :: 0 <= i < |lines| ==> |lines[i]| <= ColumnsFit(width)
    ensures forall i :: 0 <= i < |lines| ==> LineOf(lines[i], Chunks(items, |lines|), i)
  {
    var columnsFit := ColumnsFit(width);
    var rows := DivCeil(|items|, columnsFit);
    var columns := Chunks(items, rows);
    ColumnsFitScreen(|items|, width);
    ChunksLength(items, rows);
    lines := [];
    for i := 0 to rows
      invariant |lines| == i
      invariant forall i' :: 0 <= i' < i ==> LineOf(lines[i'], columns, i')
    {
      var line := DrawLine(columns, i);
      lines := lines + [line];
    }
  }

  /** One line of the grid: row `i` of each column, until a column has no
      row `i`. */
  method DrawLine(columns: seq<seq<DrawItem>>, i: nat) returns (line: seq<Cell>)
    ensures LineOf(line, columns, i)
  {
    line := [];
    var c := 0;
    while c < |columns|
      invariant 0 <= c <= |columns| && |line| == c
      invariant forall c' :: 0 <= c' < c ==> i < |columns[c']| && line[c'] == CellOf(columns[c'][i])
    {
      if i >= |columns[c]| {
        return;
      }
      line := line + [CellOf(columns[c][i])];
      c := c + 1;
    }
  }

  /** The grid holds every item, where column-major order puts it: item
      `k` in line `k % rows`, column `k / rows`. */
  lemma GridPlacesEveryItem(items: seq<DrawItem>, lines: seq<seq<Cell>>)
    requires |lines| >= 1
    requires forall i :: 0 <= i < |lines| ==> LineOf(lines[i], Chunks(items, |lines|), i)
    ensures forall k :: 0 <= k < |items| ==>
              k / |lines| < |lines[k % |lines|]| && lines[k % |lines|][k / |lines|] == CellOf(items[k])
  {
    forall k | 0 <= k < |items|
      ensures k / |lines| < |lines[k % |lines|]| && lines[k % |lines|][k / |lines|] == CellOf(items[k])
    {
      ItemPlaced(items, |lines|, lines[k % |lines|], k);
    }
  }

  /** Each cell of the grid shows the item of its place in column-major
      order, and nothing else: no cell lies past the last item. */
  lemma GridShowsOnlyItems(items: seq<DrawItem>, lines: seq<seq<Cell>>)
    requires |lines| >= 1
    requires forall i :: 0 <= i < |lines| ==> LineOf(lines[i], Chunks(items, |lines|), i)
    ensures forall i, c :: 0 <= i < |lines| && 0 <= c < |lines[i]| ==>
              Place(c, |lines|, i) < |items| && lines[i][c] == CellOf(items[Place(c, |lines|, i)])
  {
    forall i, c | 0 <= i < |lines| && 0 <= c < |lines[i]|
      ensures Place(c, |lines|, i) < |items| && lines[i][c] == CellOf(items[Place(c, |lines|, i)])
    {
      CellShowsItem(items, |lines|, lines[i], i, c);
    }
  }

  /** The index of the item in row `i` of column `c`. */
  function Place(c: nat, rows: nat, i: nat): nat {
    c * rows + i
  }

  lemma DivMod(k: nat, d: nat)
    requires d >= 1
    ensures k == (k / d) * d + k % d && k % d < d
  {
  }

  lemma ItemPlaced(items: seq<DrawItem>, rows: nat, line: seq<Cell>, k: nat)
    requires rows >= 1 && k < |items|
    requires LineOf(line, Chunks(items, rows), k % rows)
    ensures k / rows < |line| && line[k / rows] == CellOf(items[k])
  {
    var c, i := k / rows, k % rows;
    DivMod(k, rows);
    ItemInLine(items, rows, line, c, i, k);
  }

  lemma ItemInLine(items: seq<DrawItem>, rows: nat, line: seq<Cell>, c: nat, i: nat, k: nat)
    requires rows >= 1 && i < rows && k == c * rows + i && k < |items|
    requires LineOf(line, Chunks(items, rows), i)
    ensures c < |line| && line[c] == CellOf(items[k])
  {
    var columns := Chunks(items, rows);
    var last := |line|;
    ChunksLength(items, rows);
    var lo := last * rows;
    if last == |columns| {
      assert |items| <= lo;
    } else {
      ChunkLength(items, rows, last);
      assert lo + i >= |items|;
    }
    assert c * rows < lo;
    MulCancel(c, last, rows);
    ItemAt(items, rows, c, i);
  }

  lemma ChunkLength<T>(s: seq<T>, size: nat, c: nat)
    requires size >= 1 && c < |Chunks(s, size)|
    ensures |Chunks(s, size)[c]| == Min(c * size + size, |s|) - c * size
  {
    ChunkAt(s, size, c);
  }

  lemma CellShowsItem(items: seq<DrawItem>, rows: nat, line: seq<Cell>, i: nat, c: nat)
    requires rows >= 1 && LineOf(line, Chunks(items, rows), i) && c < |line|
    ensures c * rows + i < |items| && line[c] == CellOf(items[c * rows + i])
  {
    ItemAt(items, rows, c, i);
  }

  lemma ItemAt(items: seq<DrawItem>, rows: nat, c: nat, i: nat)
    requires rows >= 1 && c < |Chunks(items, rows)| && i < |Chunks(items, rows)[c]|
    ensures c * rows + i < |items| && Chunks(items, rows)[c][i] == items[c * rows + i]
  {
    ChunkAt(items, rows, c);
  }
}
