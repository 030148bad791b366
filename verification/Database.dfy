/** One database session: the tables, and START TRANSACTION, COMMIT and ROLLBACK on them. */
module Database {
  import opened Common
  import opened Sm4
  import opened Tables

  datatype KeyStatus = Enabled | Disabled | Destroyed

  datatype KeyType = Enc | Idx | Tag

  // One row of key_config: the key encrypted under the master key.
  datatype StoredKey = StoredKey(cipher: Bytes, status: KeyStatus)

  // key_config, unique over type and version.
  datatype KeyConfig = KeyConfig(enc: map<int, StoredKey>, idx: map<int, StoredKey>, tag: map<int, StoredKey>) {
    function Get(t: KeyType): map<int, StoredKey> {
      match t case Enc => enc case Idx => idx case Tag => tag
    }

    function Put(t: KeyType, version: int, key: StoredKey): (r: KeyConfig)
      ensures forall u: KeyType :: r.Get(u) == if u == t then Get(u)[version := key] else Get(u)
    {
      match t
      case Enc => this.(enc := enc[version := key])
      case Idx => this.(idx := idx[version := key])
      case Tag => this.(tag := tag[version := key])
    }
  }

  // One row of index_rebuild_task; status 0 pending, 1 running, 2 done, 3 done with failures.
  datatype Task = Task(fieldCode: int, startId: int, endId: int, last: int, success: int, fail: int, status: int)

  class Session {
    var main: map<int, Row>
    var inverted: set<Token>
    var nextId: int
    var snapshot: Option<Tables>  // the tables as they were at START TRANSACTION
    var keyConfig: KeyConfig
    var tasks: map<int, Task>
    ghost var taskLog: seq<Task>  // every progress row ever written

    constructor ()
      ensures main == map[] && inverted == {} && nextId == 1 && snapshot == None
      ensures keyConfig == KeyConfig(map[], map[], map[]) && tasks == map[] && taskLog == []
    {
      main, inverted, nextId, snapshot := map[], {}, 1, None;
      keyConfig, tasks, taskLog := KeyConfig(map[], map[], map[]), map[], [];
    }

    function View(): Tables
      reads this
    {
      Store(main, inverted)
    }
  }

  // The scope guard of transaction.cpp: the constructor starts a transaction, and
  // Close, its destructor, rolls back what was not committed.
  class Transaction {
    const conn: Session
    var committed: bool

    constructor (conn: Session)
      requires conn.snapshot.None?
      modifies conn`snapshot
      ensures this.conn == conn && !committed
      ensures conn.snapshot == Some(conn.View())
    {
      this.conn := conn;
      committed := false;
      new;
      conn.snapshot := Some(conn.View());
    }

    // COMMIT makes the changes permanent, or fails and leaves the transaction open.
    method Commit(accepted: bool) returns (ok: bool)
      requires !committed ==> conn.snapshot.Some?
      modifies this, conn`snapshot
      ensures ok == (old(committed) || accepted) && committed == ok
      ensures conn.snapshot == if !old(committed) && accepted then None else old(conn.snapshot)
    {
      if committed {
        return true;
      }
      if !accepted {
        return false;
      }
      conn.snapshot := None;
      committed := true;
      ok := true;
    }

    method Rollback()
      requires !committed ==> conn.snapshot.Some?
      modifies this, conn`main, conn`inverted, conn`snapshot
      ensures committed
      ensures old(committed) ==> conn.View() == old(conn.View()) && conn.snapshot == old(conn.snapshot)
      ensures !old(committed) ==> conn.View() == old(conn.snapshot).value && conn.snapshot == None
    {
      if committed {
        return;
      }
      conn.main, conn.inverted := conn.snapshot.value.main, conn.snapshot.value.inverted;
      conn.snapshot := None;
      committed := true;
    }

    // The destructor.
    method Close()
      requires !committed ==> conn.snapshot.Some?
      modifies this, conn`main, conn`inverted, conn`snapshot
      ensures old(committed) ==> conn.View() == old(conn.View()) && conn.snapshot == old(conn.snapshot)
      ensures !old(committed) ==> conn.View() == old(conn.snapshot).value && conn.snapshot == None
    {
      if !committed {
        Rollback();
      }
    }
  }
}
