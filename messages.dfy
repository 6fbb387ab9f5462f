/** The persistent message log: the `messages` table with its AUTOINCREMENT key,
    and `saveMessage`, which inserts one row and hands its id back to the caller. */
module Messages {
  import opened Base

  /** A chat message (struct Message). `id` is 0 until the log assigns one; `ts` is Unix milliseconds. */
  datatype Message = Message(id: int, room: string, sender: string, content: string, ts: int)

  /** Rows in insertion order carry strictly increasing ids. */
  ghost predicate IdsIncreasing(rows: seq<Message>) {
    forall i, j :: 0 <= i < j < |rows| ==> rows[i].id < rows[j].id
  }

  /** No message occurs twice. */
  ghost predicate Distinct(ms: seq<Message>) {
    forall i, j :: 0 <= i < j < |ms| ==> ms[i] != ms[j]
  }

  lemma IncreasingIdsAreDistinct(rows: seq<Message>)
    requires IdsIncreasing(rows)
    ensures Distinct(rows)
  {
  }

  /** The `messages` table. `lastId` is the AUTOINCREMENT counter: the largest id ever handed out. */
  class MessageLog {
    var rows: seq<Message>
    var lastId: int

    ghost predicate Valid()
      reads this
    {
      && 0 <= lastId <= MaxInt64
      && IdsIncreasing(rows)
      && forall i :: 0 <= i < |rows| ==> 1 <= rows[i].id <= lastId
    }

    /** A freshly created schema: no rows, no id used yet. */
    constructor ()
      ensures Valid() && rows == [] && lastId == 0
    {
      rows := [];
      lastId := 0;
    }

    /** saveMessage: INSERT the message, then set its ID to LastInsertId().
        The insert fails when the storage reports an error (`storageFails`) or when
        AUTOINCREMENT has no id left below 2^63; a failed insert changes nothing.
        A successful one appends exactly the message, under an id above every id in the log. */
    method SaveMessage(m: Message, storageFails: bool) returns (saved: Message, ok: bool)
      requires Valid()
      modifies this
      ensures Valid()
      ensures ok <==> !storageFails && old(lastId) < MaxInt64
      ensures ok ==> saved == m.(id := old(lastId) + 1) && rows == old(rows) + [saved] && lastId == saved.id
      ensures ok ==> forall i :: 0 <= i < |old(rows)| ==> old(rows)[i].id < saved.id
      ensures !ok ==> saved == m && rows == old(rows) && lastId == old(lastId)
    {
      if storageFails || lastId == MaxInt64 {
        return m, false;
      }
      lastId := lastId + 1;
      saved := m.(id := lastId);
      rows := rows + [saved];
      ok := true;
    }
  }
}
