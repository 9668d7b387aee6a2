/** `SeqScan`: the operator that reads every tuple of one table through the
    table file's iterator, and names the table's fields `alias.fieldName`.
    The catalog is a parameter: a map from table id to the table's name,
    schema and pages. */
module SeqScans {
  import opened Common
  import opened Tuples
  import opened LockTables
  import opened HeapFiles

  /** One column of a schema: its type and its name (`None` for `null`). */
  datatype TDItem = TDItem(fieldType: Type, fieldName: Option<string>)

  type TupleDesc = seq<TDItem>

  /** What the catalog knows of one table. */
  datatype Table = Table(name: Option<string>, desc: TupleDesc, pages: seq<seq<Tuple>>)

  /** How Java's string concatenation and the alias normalisation write a
      possibly-null string: `null` becomes `"null"`. */
  function JavaString(s: Option<string>): (r: string)
    ensures s.Some? ==> r == s.value
    ensures s.None? ==> r == "null"
  {
    match s
    case None => "null"
    case Some(text) => text
  }

  /** `new TupleDesc(types, names)`: one item per position. */
  function NewTupleDesc(types: seq<Type>, names: seq<string>): (td: TupleDesc)
    requires |types| == |names|
    ensures |td| == |types|
    ensures forall i | 0 <= i < |td| :: td[i] == TDItem(types[i], Some(names[i]))
  {
    if types == [] then []
    else
      var last := |types| - 1;
      NewTupleDesc(types[..last], names[..last]) + [TDItem(types[last], Some(names[last]))]
  }

  /** The qualified name `alias.field`. */
  function Qualified(alias: string, field: Option<string>): string {
    alias + "." + JavaString(field)
  }

  /** A qualified name split at its first `.`: the alias and the field
      name; `None` when there is no `.`. */
  function SplitQualified(name: string): (r: Option<(string, string)>)
    ensures r.Some? ==> name == r.value.0 + "." + r.value.1 && '.' !in r.value.0
    ensures r.None? ==> '.' !in name
  {
    if name == [] then None
    else if name[0] == '.' then Some(([], name[1..]))
    else match SplitQualified(name[1..])
      case None => None
      case Some(parts) => Some(([name[0]] + parts.0, parts.1))
  }

  /** An alias without a `.` can be read back from every qualified name,
      together with the field name it qualifies. */
  lemma {:induction false} QualifiedSplits(alias: string, field: Option<string>)
    requires '.' !in alias
    ensures SplitQualified(Qualified(alias, field)) == Some((alias, JavaString(field)))
  {
    var name := Qualified(alias, field);
    if alias == [] {
      assert name == "." + JavaString(field);
    } else {
      assert name[1..] == Qualified(alias[1..], field);
      QualifiedSplits(alias[1..], field);
      assert [alias[0]] + alias[1..] == alias;
    }
  }

  class SeqScan {
    const transactionId: TransactionId
    const catalog: map<int, Table>
    var tableid: int
    var tableAlias: string
    /** The iterator of the file of the table given to the constructor. */
    const dbFileIterator: HeapFileIterator

    ghost predicate Valid()
      reads this, dbFileIterator
    {
      dbFileIterator.Valid()
    }

    /** `SeqScan(tid, tableid, tableAlias)`: a `null` alias becomes `"null"`;
        the scan iterates the table's file as transaction `tid`. */
    constructor (tid: TransactionId, tableid: int, tableAlias: Option<string>, catalog: map<int, Table>)
      requires tableid in catalog
      ensures Valid() && fresh(dbFileIterator)
      ensures transactionId == tid && this.tableid == tableid && this.catalog == catalog
      ensures this.tableAlias == JavaString(tableAlias)
      ensures dbFileIterator.tid == tid && dbFileIterator.tableId == tableid
      ensures dbFileIterator.pages == catalog[tableid].pages
      ensures !dbFileIterator.isOpen && !dbFileIterator.hasNext && dbFileIterator.requested == []
      ensures dbFileIterator.pid == 0 && dbFileIterator.heapPage.None? && dbFileIterator.tupleIterator.None?
      ensures dbFileIterator.Remaining() == TuplesFrom(catalog[tableid].pages, 0)
    {
      if tableAlias.None? {
        this.tableAlias := "null";
      } else {
        this.tableAlias := tableAlias.value;
      }
      this.tableid := tableid;
      transactionId := tid;
      this.catalog := catalog;
      dbFileIterator := new HeapFileIterator(tid, tableid, catalog[tableid].pages);
    }

    /** `SeqScan(tid, tableId)`: the table's catalog name is the alias. */
    constructor WithTableName(tid: TransactionId, tableid: int, catalog: map<int, Table>)
      requires tableid in catalog
      ensures Valid() && fresh(dbFileIterator)
      ensures transactionId == tid && this.tableid == tableid && this.catalog == catalog
      ensures tableAlias == JavaString(catalog[tableid].name)
      ensures dbFileIterator.tid == tid && dbFileIterator.tableId == tableid
      ensures dbFileIterator.pages == catalog[tableid].pages
      ensures !dbFileIterator.isOpen && !dbFileIterator.hasNext && dbFileIterator.requested == []
      ensures dbFileIterator.pid == 0 && dbFileIterator.heapPage.None? && dbFileIterator.tupleIterator.None?
      ensures dbFileIterator.Remaining() == TuplesFrom(catalog[tableid].pages, 0)
    {
      var alias := catalog[tableid].name;
      if alias.None? {
        this.tableAlias := "null";
      } else {
        this.tableAlias := alias.value;
      }
      this.tableid := tableid;
      transactionId := tid;
      this.catalog := catalog;
      dbFileIterator := new HeapFileIterator(tid, tableid, catalog[tableid].pages);
    }

    /** `reset`: new table id and alias, normalised as in the constructor.
        The file iterator is not rebuilt: the scan goes on reading the
        table it was made for, while `getTupleDesc` reads the new one. */
    method Reset(tableid: int, tableAlias: Option<string>)
      modifies this`tableid, this`tableAlias
      ensures this.tableid == tableid && this.tableAlias == JavaString(tableAlias)
    {
      if tableAlias.None? {
        this.tableAlias := "null";
      } else {
        this.tableAlias := tableAlias.value;
      }
      this.tableid := tableid;
    }

    /** `getTupleDesc`: the table's schema with every field name prefixed
        by the alias and a `.`, types unchanged. */
    method GetTupleDesc() returns (td: TupleDesc)
      requires tableid in catalog
      ensures var current := catalog[tableid].desc;
        && |td| == |current|
        && forall i | 0 <= i < |td| ::
             && td[i].fieldType == current[i].fieldType
             && td[i].fieldName == Some(Qualified(tableAlias, current[i].fieldName))
    {
      var current := catalog[tableid].desc;
      var names := new string[|current|];
      var types := new Type[|current|];
      for i := 0 to |current|
        invariant forall j | 0 <= j < i ::
          names[j] == Qualified(tableAlias, current[j].fieldName) && types[j] == current[j].fieldType
      {
        names[i] := tableAlias + "." + JavaString(current[i].fieldName);
        types[i] := current[i].fieldType;
      }
      td := NewTupleDesc(types[..], names[..]);
    }

    /** `open`: opens the file iterator, which goes back to page 0 and
        keeps its page iterator. */
    method Open()
      requires Valid()
      modifies dbFileIterator`isOpen, dbFileIterator`pid
      ensures Valid() && dbFileIterator.isOpen && dbFileIterator.pid == 0
      ensures old(dbFileIterator.tupleIterator).None? ==>
        dbFileIterator.Remaining() == TuplesFrom(dbFileIterator.pages, 0)
      ensures old(dbFileIterator.tupleIterator).Some? ==>
        dbFileIterator.Remaining() == old(dbFileIterator.tupleIterator).value + TuplesFrom(dbFileIterator.pages, 1)
    {
      dbFileIterator.Open();
    }

    /** `hasNext`: whether the file iterator has a tuple left; it returns
        none of them. */
    method HasNext() returns (b: bool)
      requires Valid()
      modifies dbFileIterator`pid, dbFileIterator`heapPage, dbFileIterator`tupleIterator,
        dbFileIterator`hasNext, dbFileIterator`requested, dbFileIterator`position
      ensures Valid()
      ensures b <==> dbFileIterator.isOpen && old(dbFileIterator.Remaining()) != []
      ensures dbFileIterator.Remaining() == old(dbFileIterator.Remaining())
      ensures dbFileIterator.isOpen ==> dbFileIterator.hasNext == b
    {
      b := dbFileIterator.HasNext();
    }

    /** `next`: the file iterator's next tuple, with `next` behaving as an
        iterator's should (see `HeapFileIterator.NextChecked`). */
    method Next() returns (r: Result<Tuple, Exception>)
      requires Valid()
      modifies dbFileIterator`pid, dbFileIterator`heapPage, dbFileIterator`tupleIterator,
        dbFileIterator`hasNext, dbFileIterator`requested, dbFileIterator`position
      ensures Valid()
      ensures r.Success? <==> dbFileIterator.isOpen && old(dbFileIterator.Remaining()) != []
      ensures r.Success? ==>
        && r.value == old(dbFileIterator.Remaining())[0]
        && dbFileIterator.Remaining() == old(dbFileIterator.Remaining())[1..]
      ensures r.Failure? ==> r.error == NoSuchElement && dbFileIterator.Remaining() == old(dbFileIterator.Remaining())
    {
      r := dbFileIterator.NextChecked();
    }

    /** `close`: the file iterator is back in the state of a new one, so
        the next `open` starts over at the first tuple. */
    method Close()
      modifies dbFileIterator`pid, dbFileIterator`isOpen, dbFileIterator`hasNext,
        dbFileIterator`heapPage, dbFileIterator`tupleIterator
      ensures Valid() && !dbFileIterator.isOpen && !dbFileIterator.hasNext
      ensures dbFileIterator.pid == 0 && dbFileIterator.heapPage.None? && dbFileIterator.tupleIterator.None?
      ensures dbFileIterator.Remaining() == TuplesFrom(dbFileIterator.pages, 0)
    {
      dbFileIterator.Close();
    }

    /** `rewind`: the file iterator starts over at the first tuple. */
    method Rewind()
      modifies dbFileIterator`pid, dbFileIterator`isOpen, dbFileIterator`hasNext,
        dbFileIterator`heapPage, dbFileIterator`tupleIterator
      ensures Valid() && dbFileIterator.isOpen && !dbFileIterator.hasNext
      ensures dbFileIterator.pid == 0 && dbFileIterator.heapPage.None? && dbFileIterator.tupleIterator.None?
      ensures dbFileIterator.Remaining() == TuplesFrom(dbFileIterator.pages, 0)
    {
      dbFileIterator.Rewind();
    }
  }

  /** A scan of a table with one page holding `t` and one holding `u`:
      `open` then `next` returns `t`, `hasNext` then `next` returns `u`,
      after which nothing is left; `close` and `open` start over at `t`. */
  method ScanTwoTuples(t: Tuple, u: Tuple) returns (first: Result<Tuple, Exception>, more: bool,
    second: Result<Tuple, Exception>, done: bool, again: Result<Tuple, Exception>)
    ensures first == Success(t) && more && second == Success(u) && !done && again == Success(t)
  {
    var catalog := map[7 := Table(Some("t"), [], [[t], [u]])];
    var scan := new SeqScan(TransactionId(1), 7, None, catalog);
    scan.Open();
    assert TuplesFrom([[t], [u]], 2) == [];
    assert TuplesFrom([[t], [u]], 1) == [u];
    assert TuplesFrom([[t], [u]], 0) == [t, u];
    first := scan.Next();
    more := scan.HasNext();
    second := scan.Next();
    done := scan.HasNext();
    scan.Close();
    scan.Open();
    again := scan.Next();
  }
}
