/** The replay database on the heap: three chained hash tables whose contents refine `ReplayWindow`. */
module ReplayDatabase {
  import opened MachineTypes
  import opened ReplayWindow

  /** One entry of a chain; neither field changes between its insertion and its deletion. */
  class Entry {
    const next: Entry?
    const key: UInt64
    ghost const chain: seq<UInt64>

    constructor (next: Entry?, key: UInt64)
      requires next != null ==> next.Linked()
      ensures this.next == next && this.key == key
      ensures chain == [key] + ChainOf(next) && Linked()
    {
      this.next := next;
      this.key := key;
      this.chain := [key] + ChainOf(next);
    }

    /** `chain` is the list of keys from this entry to the end. */
    ghost predicate Linked()
      decreases |chain|
    {
      && |chain| > 0 && chain[0] == key
      && chain[1..] == ChainOf(next)
      && (next != null ==> next.Linked())
    }
  }

  ghost function ChainOf(e: Entry?): seq<UInt64>
  {
    if e == null then [] else e.chain
  }

  ghost predicate WellChained(e: Entry?)
  {
    && (e != null ==> e.Linked())
    && forall i, j :: 0 <= i < j < |ChainOf(e)| ==> ChainOf(e)[i] != ChainOf(e)[j]
  }

  class DatabaseInfo {
    const table: array2<Entry?>
    var size: UInt32
    ghost var content: set<Id>

    /** Every chain is acyclic and free of duplicates, the chains hold exactly `content`, and `size` counts it. */
    ghost predicate Valid()
      reads this, table
    {
      && table.Length0 == 256 && table.Length1 == 256
      && (forall r: Byte, c: Byte :: WellChained(table[r, c]))
      && (forall r: Byte, c: Byte, h: UInt64 :: Id(r, c, h) in content <==> h in ChainOf(table[r, c]))
      && size == |content| % TWO_32
    }

    constructor ()
      ensures Valid() && fresh(table) && content == {}
    {
      table := new Entry?[256, 256]((_, _) => null);
      size := 0;
      content := {};
    }

    /** Search the chain of the key; add the key in front when it is not there. */
    method SearchAndAdd(row: Byte, column: Byte, hash: UInt64) returns (isNew: bool)
      requires Valid()
      modifies this, table
      ensures Valid()
      ensures isNew <==> Id(row, column, hash) !in old(content)
      ensures content == old(content) + {Id(row, column, hash)}
    {
      var tmp := table[row, column];
      ghost var seen := 0;
      while tmp != null
        invariant Valid() && content == old(content)
        invariant 0 <= seen <= |ChainOf(table[row, column])|
        invariant tmp != null ==> tmp.Linked()
        invariant ChainOf(tmp) == ChainOf(table[row, column])[seen..]
        invariant hash !in ChainOf(table[row, column])[..seen]
        decreases |ChainOf(tmp)|
      {
        if tmp.key != hash {
          assert ChainOf(tmp)[0] == ChainOf(table[row, column])[seen];
          tmp := tmp.next;
          seen := seen + 1;
        } else {
          assert hash in ChainOf(tmp);
          assert content == old(content) + {Id(row, column, hash)};
          return false;
        }
      }
      tmp := new Entry(table[row, column], hash);
      ghost var before := ChainOf(table[row, column]);
      assert hash !in before;
      table[row, column] := tmp;
      size := Add32(size, 1);
      content := content + {Id(row, column, hash)};
      assert |content| == |old(content)| + 1;
      return true;
    }

    method ClearDB()
      requires Valid()
      modifies this, table
      ensures Valid() && content == {}
    {
      var r := 0;
      while r < 256
        invariant 0 <= r <= 256 && table.Length0 == 256 && table.Length1 == 256
        invariant forall i, j :: 0 <= i < r && 0 <= j < 256 ==> table[i, j] == null
        invariant forall i, j :: 0 <= i < 256 && 0 <= j < 256 && table[i, j] != null ==> table[i, j].Linked()
      {
        var c := 0;
        while c < 256
          invariant 0 <= c <= 256
          invariant forall i, j :: 0 <= i < r && 0 <= j < 256 ==> table[i, j] == null
          invariant forall j :: 0 <= j < c ==> table[r, j] == null
          invariant forall i, j :: 0 <= i < 256 && 0 <= j < 256 && table[i, j] != null ==> table[i, j].Linked()
        {
          while table[r, c] != null
            invariant forall i, j :: 0 <= i < r && 0 <= j < 256 ==> table[i, j] == null
            invariant forall j :: 0 <= j < c ==> table[r, j] == null
            invariant forall i, j :: 0 <= i < 256 && 0 <= j < 256 && table[i, j] != null ==> table[i, j].Linked()
            decreases |ChainOf(table[r, c])|
          {
            var anker := table[r, c];
            table[r, c] := anker.next;
          }
          c := c + 1;
        }
        r := r + 1;
      }
      size := 0;
      content := {};
    }
  }

  class Database {
    var lastSwitch: UInt64
    var currDatabase: DatabaseInfo
    var nextDatabase: DatabaseInfo
    var prevDatabase: DatabaseInfo

    ghost predicate Valid()
      reads this, prevDatabase, currDatabase, nextDatabase
      reads prevDatabase.table, currDatabase.table, nextDatabase.table
    {
      && prevDatabase.Valid() && currDatabase.Valid() && nextDatabase.Valid()
      && prevDatabase != currDatabase && prevDatabase != nextDatabase && currDatabase != nextDatabase
      && prevDatabase.table != currDatabase.table && prevDatabase.table != nextDatabase.table
      && currDatabase.table != nextDatabase.table
    }

    ghost function Abs(): Window
      reads this, prevDatabase, currDatabase, nextDatabase
    {
      Window(lastSwitch, prevDatabase.content, currDatabase.content, nextDatabase.content)
    }

    constructor (now: UInt64)
      ensures Valid() && Abs() == Window(now, {}, {}, {})
    {
      currDatabase := new DatabaseInfo();
      prevDatabase := new DatabaseInfo();
      nextDatabase := new DatabaseInfo();
      lastSwitch := now;
    }

    ghost function DatabaseAt(slot: Slot): DatabaseInfo
      reads this
    {
      match slot
      case Prev => prevDatabase
      case Curr => currDatabase
      case Next => nextDatabase
    }

    /** One of the three searches of `Insert`; `slot` names the table for the specification. */
    method Consult(db: DatabaseInfo, ghost slot: Slot, row: Byte, column: Byte, hash: UInt64) returns (isNew: bool)
      requires Valid() && db == DatabaseAt(slot)
      modifies db, db.table
      ensures Valid()
      ensures isNew <==> Id(row, column, hash) !in Ids(old(Abs()), slot)
      ensures Abs() == if isNew then Put(old(Abs()), slot, Id(row, column, hash)) else old(Abs())
    {
      isNew := db.SearchAndAdd(row, column, hash);
      assert old(db.content) == Ids(old(Abs()), slot);
    }

    /** Accept a key at most once in the intervals next to its timestamp; `now` is the system time. */
    method Insert(key: Key, timestamp: UInt64, now: UInt32) returns (accepted: bool)
      requires Valid()
      modifies prevDatabase, currDatabase, nextDatabase
      modifies prevDatabase.table, currDatabase.table, nextDatabase.table
      ensures Valid()
      ensures (Abs(), accepted) == ReplayWindow.Insert(old(Abs()), key, timestamp, now)
    {
      hide Valid;
      if timestamp < Sub64(lastSwitch, SECONDS_PER_INTERVALL) || timestamp > Add32(now, FUTURE_TOLERANCE) {
        return false;
      }
      var aktDB: DatabaseInfo;
      var prevDB: DatabaseInfo?, nextDB: DatabaseInfo?;
      if timestamp < lastSwitch {
        aktDB, prevDB, nextDB := prevDatabase, null, currDatabase;
      } else if timestamp < Add64(lastSwitch, SECONDS_PER_INTERVALL) {
        aktDB, prevDB, nextDB := currDatabase, prevDatabase, nextDatabase;
      } else {
        aktDB, prevDB, nextDB := nextDatabase, currDatabase, null;
      }
      var hashkey := HashKey(key);
      ghost var slots, id := Consulted(Abs(), timestamp), IdOf(key);
      ghost var after := InsertInto(Abs(), slots, id);
      if prevDB != null {
        var isNew := Consult(prevDB, slots[0], key[0], key[1], hashkey);
        if !isNew {
          return false;
        }
        slots := slots[1..];
      }
      assert after == InsertInto(Abs(), slots, id);
      var isNew := Consult(aktDB, slots[0], key[0], key[1], hashkey);
      if !isNew {
        return false;
      }
      slots := slots[1..];
      assert after == InsertInto(Abs(), slots, id);
      if nextDB != null {
        isNew := Consult(nextDB, slots[0], key[0], key[1], hashkey);
        if !isNew {
          return false;
        }
        slots := slots[1..];
      }
      assert slots == [];
      assert after == InsertInto(Abs(), [], id);
      return true;
    }

    method NextClock()
      requires Valid()
      modifies this, prevDatabase, prevDatabase.table
      ensures Valid()
      ensures Abs() == ReplayWindow.NextClock(old(Abs()))
    {
      lastSwitch := Add64(lastSwitch, SECONDS_PER_INTERVALL);
      prevDatabase.ClearDB();
      var tmpDB := prevDatabase;
      prevDatabase := currDatabase;
      currDatabase := nextDatabase;
      nextDatabase := tmpDB;
    }
  }
}
