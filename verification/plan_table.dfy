/** Flattening of reading-plan documents into one CSV table.

    Each plan document is a decoded JSON object with an optional title,
    description, duration and list of chapter items. The generator writes one
    fixed header row and then, plan by plan in ascending file-name order, one
    row per chapter item. The plan-level fields are repeated on every row of
    their plan and missing keys take the defaults of `dict.get`. */
module PlanTable {
  import opened Results
  import NameOrder

  /** A JSON scalar as the CSV writer receives it: `null` (written as an empty
      cell), a string or an integer. */
  datatype Cell = Null | Str(s: string) | Int(i: int)

  /** One element of a plan's `chapters` list. `None` is a key that is absent
      from the JSON object; `Some(Null)` is a key present with value `null`. */
  datatype ChapterItem = ChapterItem(
    dia: Option<Cell>,
    bookName: Option<Cell>,
    chapterStart: Option<Cell>,
    chapterEnd: Option<Cell>)

  /** A decoded plan document. `chapters` is `None` when the key is absent. */
  datatype Plan = Plan(
    title: Option<Cell>,
    description: Option<Cell>,
    durationDays: Option<Cell>,
    chapters: Option<seq<ChapterItem>>)

  /** The values written for one chapter item, in column order. */
  datatype ItemRow = ItemRow(
    title: Cell,
    description: Cell,
    duration: Cell,
    day: Cell,
    book: Cell,
    start: Cell,
    end: Cell)

  /** The number of columns of the table. */
  const Width: nat := 7

  /** The fixed first row of the table. */
  const HeaderRow: seq<Cell> := [
    Str("plan_title"), Str("plan_description"), Str("duration_days"),
    Str("day_number"), Str("book_name"), Str("chapter_start"), Str("chapter_end")]

  /** `dict.get(key, default)`: the stored value, or `default` when the key is absent. */
  function Get(field: Option<Cell>, default: Cell): Cell
  {
    match field
    case Some(v) => v
    case None => default
  }

  /** The chapter items of a plan, the empty list when the key is absent. */
  function Chapters(p: Plan): seq<ChapterItem>
  {
    match p.chapters
    case Some(items) => items
    case None => []
  }

  /** The row written for `item` of plan `p`. */
  function RowOf(p: Plan, item: ChapterItem): ItemRow
  {
    var start := Get(item.chapterStart, Null);
    ItemRow(
      Get(p.title, Str("")),
      Get(p.description, Str("")),
      Get(p.durationDays, Int(0)),
      Get(item.dia, Null),
      Get(item.bookName, Str("")),
      start,
      Get(item.chapterEnd, start))
  }

  /** The cells of a row as the CSV writer receives them. */
  function Cells(r: ItemRow): seq<Cell>
  {
    [r.title, r.description, r.duration, r.day, r.book, r.start, r.end]
  }

  /** The rows written for one plan, one per chapter item, in item order. */
  function PlanRows(p: Plan): (rows: seq<ItemRow>)
  {
    seq(|Chapters(p)|, j requires 0 <= j < |Chapters(p)| => RowOf(p, Chapters(p)[j]))
  }

  /** The total number of chapter items over a sequence of plans. */
  function TotalItems(plans: seq<Plan>): nat
  {
    if |plans| == 0 then 0 else |Chapters(plans[0])| + TotalItems(plans[1..])
  }

  /** The number of item rows that precede the rows of `plans[i]`. */
  function Offset(plans: seq<Plan>, i: nat): nat
    requires i <= |plans|
  {
    TotalItems(plans[..i])
  }

  /** The table position of the row of item `j` of plan `i` (row 0 is the header). */
  function RowIndex(plans: seq<Plan>, i: nat, j: nat): nat
    requires i < |plans|
  {
    1 + Offset(plans, i) + j
  }

  /** The item rows of all plans, plan after plan. */
  function Body(plans: seq<Plan>): (rows: seq<ItemRow>)
    ensures |rows| == TotalItems(plans)
  {
    if |plans| == 0 then [] else PlanRows(plans[0]) + Body(plans[1..])
  }

  /** The table written for `plans`, taken in the given order. */
  function Flatten(plans: seq<Plan>): (table: seq<seq<Cell>>)
    ensures |table| == 1 + TotalItems(plans)
    ensures table[0] == HeaderRow
    ensures forall k :: 0 <= k < |table| ==> |table[k]| == Width
  {
    var body := Body(plans);
    [HeaderRow] + seq(|body|, k requires 0 <= k < |body| => Cells(body[k]))
  }

  /** The plans of a directory listing, in listing order. */
  function Plans(files: seq<(string, Plan)>): seq<Plan>
  {
    seq(|files|, i requires 0 <= i < |files| => files[i].1)
  }

  /** The plans of a directory listing in ascending file-name order. */
  function SortedPlans(files: seq<(string, Plan)>): seq<Plan>
  {
    Plans(NameOrder.SortByName(files))
  }

  /** The whole generator: sort the listing by name and flatten the plans. */
  function Generate(files: seq<(string, Plan)>): seq<seq<Cell>>
  {
    Flatten(SortedPlans(files))
  }

  // ---------------------------------------------------------------------
  // Counting and concatenation

  lemma {:induction false} TotalItemsAppend(a: seq<Plan>, b: seq<Plan>)
    ensures TotalItems(a + b) == TotalItems(a) + TotalItems(b)
  {
    if |a| == 0 {
      assert a + b == b;
    } else {
      assert (a + b)[1..] == a[1..] + b;
      TotalItemsAppend(a[1..], b);
    }
  }

  lemma {:induction false} BodyAppend(a: seq<Plan>, b: seq<Plan>)
    ensures Body(a + b) == Body(a) + Body(b)
  {
    if |a| == 0 {
      assert a + b == b;
    } else {
      assert (a + b)[1..] == a[1..] + b;
      BodyAppend(a[1..], b);
    }
  }

  lemma OffsetStep(plans: seq<Plan>, i: nat)
    requires i < |plans|
    ensures Offset(plans, i + 1) == Offset(plans, i) + |Chapters(plans[i])|
  {
    assert plans[..i + 1] == plans[..i] + [plans[i]];
    TotalItemsAppend(plans[..i], [plans[i]]);
  }

  lemma OffsetMonotone(plans: seq<Plan>, i: nat, k: nat)
    requires i <= k <= |plans|
    ensures Offset(plans, i) <= Offset(plans, k)
  {
    assert plans[..k] == plans[..i] + plans[i..k];
    TotalItemsAppend(plans[..i], plans[i..k]);
  }

  lemma OffsetShift(plans: seq<Plan>, i: nat)
    requires 0 < |plans| && i < |plans|
    ensures Offset(plans, i + 1) == |Chapters(plans[0])| + Offset(plans[1..], i)
  {
    assert plans[..i + 1][1..] == plans[1..][..i];
  }

  // ---------------------------------------------------------------------
  // Where each item's row lands

  lemma BodyAround(front: seq<Plan>, p: Plan, back: seq<Plan>)
    ensures Body(front + [p] + back) == Body(front) + PlanRows(p) + Body(back)
  {
    BodyAppend(front + [p], back);
    BodyAppend(front, [p]);
    assert Body([p]) == PlanRows(p);
  }

  lemma {:induction false} BodySplit(plans: seq<Plan>, i: nat)
    requires i < |plans|
    ensures Body(plans) == Body(plans[..i]) + PlanRows(plans[i]) + Body(plans[i + 1..])
  {
    if i > 0 {
      BodySplit(plans[1..], i - 1);
      assert plans[..i][1..] == plans[1..][..i - 1];
      assert plans[1..][i..] == plans[i + 1..];
    }
  }

  lemma BodyAt(plans: seq<Plan>, i: nat, j: nat)
    requires i < |plans| && j < |Chapters(plans[i])|
    ensures Offset(plans, i) + j < |Body(plans)|
    ensures Body(plans)[Offset(plans, i) + j] == RowOf(plans[i], Chapters(plans[i])[j])
  {
    BodySplit(plans, i);
    var front, mid := Body(plans[..i]), PlanRows(plans[i]);
    assert |front| == Offset(plans, i);
    assert Body(plans)[|front| + j] == mid[j];
  }

  /** The row of item `j` of plan `i` sits at `RowIndex(plans, i, j)` and holds
      the plan's title, description and duration, the item's day, book, first
      chapter and last chapter, each with the default of its column when the
      key is absent; a missing last chapter repeats the first one. */
  lemma FlattenAt(plans: seq<Plan>, i: nat, j: nat)
    requires i < |plans| && j < |Chapters(plans[i])|
    ensures RowIndex(plans, i, j) < |Flatten(plans)|
    ensures var row, p, item := Flatten(plans)[RowIndex(plans, i, j)], plans[i], Chapters(plans[i])[j];
      && |row| == Width
      && row[0] == (if p.title.Some? then p.title.value else Str(""))
      && row[1] == (if p.description.Some? then p.description.value else Str(""))
      && row[2] == (if p.durationDays.Some? then p.durationDays.value else Int(0))
      && row[3] == (if item.dia.Some? then item.dia.value else Null)
      && row[4] == (if item.bookName.Some? then item.bookName.value else Str(""))
      && row[5] == (if item.chapterStart.Some? then item.chapterStart.value else Null)
      && row[6] == (if item.chapterEnd.Some? then item.chapterEnd.value else row[5])
  {
    BodyAt(plans, i, j);
  }

  /** Every row after the header is the row of exactly one (plan, item) pair:
      the inverse of `RowIndex`. */
  function Locate(plans: seq<Plan>, k: nat): (ij: (nat, nat))
    requires 1 <= k < |Flatten(plans)|
    ensures ij.0 < |plans| && ij.1 < |Chapters(plans[ij.0])|
    ensures RowIndex(plans, ij.0, ij.1) == k
    decreases |plans|
  {
    if k - 1 < |Chapters(plans[0])| then
      (0, k - 1)
    else
      var ij := Locate(plans[1..], k - |Chapters(plans[0])|);
      OffsetShift(plans, ij.0);
      (ij.0 + 1, ij.1)
  }

  /** Rows are laid out plan by plan and, inside a plan, item by item: row
      positions follow the lexicographic order of (plan, item). */
  lemma FlattenOrder(plans: seq<Plan>, i1: nat, j1: nat, i2: nat, j2: nat)
    requires i1 < |plans| && j1 < |Chapters(plans[i1])|
    requires i2 < |plans| && j2 < |Chapters(plans[i2])|
    ensures RowIndex(plans, i1, j1) < RowIndex(plans, i2, j2) <==> i1 < i2 || (i1 == i2 && j1 < j2)
  {
    if i1 < i2 {
      OffsetStep(plans, i1);
      OffsetMonotone(plans, i1 + 1, i2);
    } else if i2 < i1 {
      OffsetStep(plans, i2);
      OffsetMonotone(plans, i2 + 1, i1);
    }
  }

  /** All rows of one plan carry the same title, description and duration. */
  lemma PlanFieldsRepeated(plans: seq<Plan>, i: nat, j1: nat, j2: nat)
    requires i < |plans| && j1 < |Chapters(plans[i])| && j2 < |Chapters(plans[i])|
    ensures RowIndex(plans, i, j1) < |Flatten(plans)| && RowIndex(plans, i, j2) < |Flatten(plans)|
    ensures Flatten(plans)[RowIndex(plans, i, j1)][..3] == Flatten(plans)[RowIndex(plans, i, j2)][..3]
  {
    FlattenAt(plans, i, j1);
    FlattenAt(plans, i, j2);
  }

  /** Flattening distributes over concatenation of the plan list: the header
      is written once and the item rows of the two parts follow each other. */
  lemma FlattenAppend(a: seq<Plan>, b: seq<Plan>)
    ensures Flatten(a + b) == Flatten(a) + Flatten(b)[1..]
  {
    BodyAppend(a, b);
  }

  /** A plan without a `chapters` key, or with an empty list, adds no row. */
  lemma PlanWithoutChapters(front: seq<Plan>, p: Plan, back: seq<Plan>)
    requires p.chapters.None? || p.chapters == Some([])
    ensures Flatten(front + [p] + back) == Flatten(front + back)
  {
    BodyAround(front, p, back);
    BodyAppend(front, back);
  }

  /** In the generated table, every row of a file whose name sorts strictly
      before another file's name precedes every row of that other file. */
  lemma GenerateOrder(files: seq<(string, Plan)>, x: nat, jx: nat, y: nat, jy: nat)
    requires x < |files| && y < |files|
    requires NameOrder.Lt(NameOrder.SortByName(files)[x].0, NameOrder.SortByName(files)[y].0)
    requires jx < |Chapters(SortedPlans(files)[x])| && jy < |Chapters(SortedPlans(files)[y])|
    ensures RowIndex(SortedPlans(files), x, jx) < RowIndex(SortedPlans(files), y, jy) < |Generate(files)|
  {
    NameOrder.SortedPrecedence(NameOrder.SortByName(files), x, y);
    FlattenOrder(SortedPlans(files), x, jx, y, jy);
    FlattenAt(SortedPlans(files), y, jy);
  }
}
