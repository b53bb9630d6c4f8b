/** The record store held by `EmployeeApp`: the list `self.data`, the data
    file `employees.json` it is loaded from and saved to, and the handlers
    that search, add, edit and delete records. */
module EmployeeApp {
  import opened PyStr
  import opened Records

  /** What `employees.json` holds, as far as `load_data` can tell: no file,
      a file that cannot be opened or parsed, or a list of records. */
  datatype DataFile = Absent | Unreadable | Holds(records: seq<Record>)

  /** `add_employee` either shows the message "请输入姓名和短号" and stops,
      or appends and then redraws the list with every record. */
  datatype AddOutcome = Rejected | Added(shown: seq<Record>)

  /** `delete_employee` either hits the `ValueError` of `list.remove` (no
      equal record left in the list), or removes one and redraws the list. */
  datatype DeleteOutcome = NotFound | Removed(shown: seq<Record>)

  class Store {
    /** `self.data`, in insertion order. */
    var data: seq<Record>
    /** The data file on disk. */
    var disk: DataFile
    /** How many times `save_data` has written the file. */
    ghost var saves: nat

    /** `build`: the list starts empty; the data file is whatever is on disk. */
    constructor (file: DataFile)
      ensures data == [] && disk == file && saves == 0
    {
      data := [];
      disk := file;
      saves := 0;
    }

    /** `load_data`: the file's records, or the empty list when the file is
        absent or cannot be read; then the list is drawn with every record. */
    method LoadData() returns (shown: seq<Record>)
      modifies this`data
      ensures disk.Holds? ==> data == disk.records
      ensures !disk.Holds? ==> data == []
      ensures shown == data
    {
      match disk {
        case Holds(records) => data := records;
        case Absent => data := [];
        case Unreadable => data := [];
      }
      shown := RefreshList("");
      FilterEmptyQuery(data);
    }

    /** `save_data`: the whole list is written over the file. */
    method SaveData()
      modifies this`disk, this`saves
      ensures disk == Holds(data) && saves == old(saves) + 1
    {
      disk := Holds(data);
      saves := saves + 1;
    }

    /** `refresh_list`: the records drawn are those of `self.data` that match
        the query, in list order; the list itself is only read. */
    method RefreshList(query: string) returns (shown: seq<Record>)
      ensures shown == Filter(query, data)
    {
      shown := [];
      var i := 0;
      while i < |data|
        invariant 0 <= i <= |data|
        invariant shown == Filter(query, data[..i])
      {
        var emp := data[i];
        assert data[..i + 1][..i] == data[..i];
        if Matches(query, emp) {
          shown := shown + [emp];
        }
        i := i + 1;
      }
      assert data[..i] == data;
    }

    /** `add_employee`: both fields are stripped; if either is then empty the
        list and the file are left alone. Otherwise one record with the
        stripped fields is appended, the file is rewritten and every record
        is drawn. */
    method AddEmployee(nameText: string, shortText: string) returns (outcome: AddOutcome)
      modifies this`data, this`disk, this`saves
      ensures outcome.Rejected? <==> Strip(nameText) == [] || Strip(shortText) == []
      ensures outcome.Rejected? ==>
                data == old(data) && disk == old(disk) && saves == old(saves)
      ensures outcome.Added? ==>
                data == old(data) + [Record(Strip(nameText), Strip(shortText))] &&
                disk == Holds(data) && saves == old(saves) + 1 &&
                outcome.shown == data
    {
      var name := Strip(nameText);
      var short := Strip(shortText);
      if name == [] || short == [] {
        return Rejected;
      }
      data := data + [Record(name, short)];
      SaveData();
      var shown := RefreshList("");
      FilterEmptyQuery(data);
      outcome := Added(shown);
    }

    /** `update_employee`: the record the dialog was opened on, at position
        `i`, gets the stripped new fields, empty or not; no other record
        moves or changes; the file is rewritten and every record is drawn. */
    method UpdateEmployee(i: nat, nameText: string, shortText: string) returns (shown: seq<Record>)
      requires i < |data|
      modifies this`data, this`disk, this`saves
      ensures data == old(data)[i := Record(Strip(nameText), Strip(shortText))]
      ensures disk == Holds(data) && saves == old(saves) + 1
      ensures shown == data
    {
      data := data[i := Record(Strip(nameText), Strip(shortText))];
      SaveData();
      shown := RefreshList("");
      FilterEmptyQuery(data);
    }

    /** `delete_employee`: `list.remove` takes out the first record equal to
        `emp`, keeping the others in order; the file is rewritten and every
        record is drawn. With no equal record the handler stops at the
        `ValueError` and nothing changes. */
    method DeleteEmployee(emp: Record) returns (outcome: DeleteOutcome)
      modifies this`data, this`disk, this`saves
      ensures outcome.NotFound? <==> emp !in old(data)
      ensures outcome.NotFound? ==>
                data == old(data) && disk == old(disk) && saves == old(saves)
      ensures outcome.Removed? ==>
                data == Without(old(data), IndexOf(old(data), emp)) &&
                multiset(data) == multiset(old(data)) - multiset{emp} &&
                disk == Holds(data) && saves == old(saves) + 1 &&
                outcome.shown == data
    {
      var k := IndexOf(data, emp);
      if k == |data| {
        return NotFound;
      }
      data := Without(data, k);
      SaveData();
      var shown := RefreshList("");
      FilterEmptyQuery(data);
      outcome := Removed(shown);
    }
  }

  /** A restarted program that loads the file a store last saved sees the
      same list, in the same order. */
  method Restart(store: Store) returns (restarted: Store)
    requires store.disk == Holds(store.data)
    ensures fresh(restarted)
    ensures restarted.data == store.data
  {
    restarted := new Store(store.disk);
    var shown := restarted.LoadData();
  }

  /** Searching by name ignores case, searching by short number does not:
      after adding Alice / 101, "ALICE" and "101" find her and "999" does not. */
  method SearchCaseScenario() returns (byName: seq<Record>, byShort: seq<Record>, miss: seq<Record>)
    ensures byName == [Record("Alice", "101")]
    ensures byShort == [Record("Alice", "101")]
    ensures miss == []
  {
    var store := StartAndAdd("Alice", "101");
    AliceSearches(Record("Alice", "101"));
    byName := store.RefreshList("ALICE");
    byShort := store.RefreshList("101");
    miss := store.RefreshList("999");
  }

  /** Start with no data file and add one record whose fields have no
      whitespace at either end. */
  method StartAndAdd(name: string, short: string) returns (store: Store)
    requires name != [] && !IsSpace(name[0]) && !IsSpace(name[|name| - 1])
    requires short != [] && !IsSpace(short[0]) && !IsSpace(short[|short| - 1])
    ensures fresh(store)
    ensures store.data == [Record(name, short)] && store.disk == Holds(store.data)
  {
    StripKeeps(name);
    StripKeeps(short);
    store := new Store(Absent);
    var loaded := store.LoadData();
    var added := store.AddEmployee(name, short);
  }

  lemma AliceSearches(alice: Record)
    requires alice == Record("Alice", "101")
    ensures Filter("ALICE", [alice]) == [alice]
    ensures Filter("101", [alice]) == [alice]
    ensures Filter("999", [alice]) == []
  {
    AliceByName(alice);
    AliceByShort(alice);
    AliceMissed(alice);
  }

  lemma AliceByName(alice: Record)
    requires alice == Record("Alice", "101")
    ensures Filter("ALICE", [alice]) == [alice]
  {
    assert Lower("ALICE") == "alice" && Lower("Alice") == "alice";
    ContainsSameLength("alice", "alice");
    FilterSingleton("ALICE", alice);
  }

  lemma AliceByShort(alice: Record)
    requires alice == Record("Alice", "101")
    ensures Filter("101", [alice]) == [alice]
  {
    ContainsSameLength("101", "101");
    FilterSingleton("101", alice);
  }

  lemma AliceMissed(alice: Record)
    requires alice == Record("Alice", "101")
    ensures Filter("999", [alice]) == []
  {
    assert Lower("999") == "999" && Lower("Alice") == "alice";
    AbsentFirstChar("alice", "999");
    AbsentFirstChar("101", "999");
    FilterSingleton("999", alice);
  }

  /** Add, find, edit, find by the new and the old short number, restart
      from the saved file, delete, and find nothing. */
  method EndToEndScenario()
    returns (found: seq<Record>, byOld: seq<Record>, byNew: seq<Record>,
             reloaded: seq<Record>, afterDelete: seq<Record>)
    ensures found == [Record("张三", "101")]
    ensures byOld == []
    ensures byNew == [Record("张三", "102")]
    ensures reloaded == [Record("张三", "102")]
    ensures afterDelete == []
  {
    var before, after := Record("张三", "101"), Record("张三", "102");
    assert "张三"[0] == '张' && "张三"[1] == '三';
    var store := StartAndAdd("张三", "101");
    ZhangSearches(before, after);
    found := store.RefreshList("张");
    EditShort(store);
    byOld := store.RefreshList("101");
    byNew := store.RefreshList("102");
    reloaded, afterDelete := RestartAndDelete(store);
  }

  /** Restart from the file holding 张三 / 102, draw every record, delete
      张三 / 102 from the restarted store and draw every record again. */
  method RestartAndDelete(store: Store) returns (reloaded: seq<Record>, afterDelete: seq<Record>)
    requires store.data == [Record("张三", "102")] && store.disk == Holds(store.data)
    ensures reloaded == [Record("张三", "102")]
    ensures afterDelete == []
  {
    var restarted := Restart(store);
    reloaded := restarted.RefreshList("");
    FilterEmptyQuery(restarted.data);
    var removed := restarted.DeleteEmployee(Record("张三", "102"));
    afterDelete := restarted.RefreshList("");
    FilterEmptyQuery(restarted.data);
  }

  /** The edit dialog on 张三 / 101 saves 张三 / 102. */
  method EditShort(store: Store)
    requires store.data == [Record("张三", "101")]
    modifies store
    ensures store.data == [Record("张三", "102")] && store.disk == Holds(store.data)
  {
    StripKeeps("张三");
    StripKeeps("102");
    var shown := store.UpdateEmployee(0, "张三", "102");
  }

  lemma ZhangSearches(before: Record, after: Record)
    requires before == Record("张三", "101") && after == Record("张三", "102")
    ensures Filter("张", [before]) == [before]
    ensures Filter("101", [after]) == []
    ensures Filter("102", [after]) == [after]
  {
    assert Lower("张") == "张" && Lower("张三") == "张三";
    assert "张三"[..1] == "张";
    FilterSingleton("张", before);
    assert Lower("101") == "101" && Lower("102") == "102";
    AbsentFirstChar("张三", "101");
    ContainsSameLength("102", "101");
    FilterSingleton("101", after);
    AbsentFirstChar("张三", "102");
    ContainsSameLength("102", "102");
    FilterSingleton("102", after);
  }
}
