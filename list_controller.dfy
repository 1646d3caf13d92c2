/** The roster list screen's state (src/enteties/UserList/ui/UserList.tsx):
    the working copy of the roster, the stored copy, the sort state, the
    search text, the record waiting for delete confirmation and the
    "deleted" notice. Each handler is a method; the remote DELETE is
    reduced to its outcome. */
module ListController {
  import opened Roster
  import opened Seqs
  import opened Projection

  /** `users.filter(u => u.id !== id)` */
  function RemoveById(users: seq<User>, id: Option<string>): (r: seq<User>)
    ensures |r| <= |users|
    ensures forall u :: u in r ==> u in users && u.id != id
  {
    Filter(users, (u: User) => u.id != id)
  }

  /** Removing by id drops exactly the records with that id, keeps the rest
      in their order, and removing again changes nothing. */
  lemma RemoveByIdSpec(users: seq<User>, id: Option<string>, u: User)
    ensures u in RemoveById(users, id) <==> u in users && u.id != id
    ensures forall v :: v in RemoveById(users, id) ==> v.id != id
    ensures RemoveById(RemoveById(users, id), id) == RemoveById(users, id)
    ensures |RemoveById(users, id)| <= |users|
  {
    var p := (v: User) => v.id != id;
    FilterMembership(users, p, u);
    forall v | v in RemoveById(users, id) ensures v.id != id {
      FilterMembership(users, p, v);
    }
    FilterIdempotent(users, p);
    var q := (v: User) => v.id == id;
    FilterPartition(users, p, q);
    assert |multiset(Filter(users, p))| + |multiset(Filter(users, q))| == |multiset(users)|;
  }

  /** Records without the id are kept whole: removal distributes over
      concatenation, so the survivors keep their relative order. */
  lemma RemoveByIdKeepsOrder(a: seq<User>, b: seq<User>, id: Option<string>)
    ensures RemoveById(a + b, id) == RemoveById(a, id) + RemoveById(b, id)
  {
    FilterAppend(a, b, (u: User) => u.id != id);
  }

  /** Nothing is removed when no record carries the id. */
  lemma RemoveAbsentId(users: seq<User>, id: Option<string>)
    requires forall i :: 0 <= i < |users| ==> users[i].id != id
    ensures RemoveById(users, id) == users
  {
    FilterKeepsAll(users, (u: User) => u.id != id);
  }

  function Flip(o: Order): Order
  {
    if o == Asc then Desc else Asc
  }

  class UserList {
    var users: seq<User>
    var storedUsers: seq<User>
    var sortField: SortField
    var order: Order
    var search: string
    var deleteUserState: Option<User>
    var isDeleteSuccess: bool

    /** The list as it stands once the stored roster has been copied into
        the working list. */
    constructor (stored: seq<User>)
      ensures users == stored && storedUsers == stored
      ensures sortField == FullName && order == Asc && search == ""
      ensures deleteUserState == None && !isDeleteSuccess
      ensures multiset(Rows()) == multiset(stored)
    {
      users := stored;
      storedUsers := stored;
      sortField := FullName;
      order := Asc;
      search := "";
      deleteUserState := None;
      isDeleteSuccess := false;
      BlankSearchKeepsEveryone(stored, "", FullName, Asc);
    }

    /** The rows on screen (`filteredUsers`). */
    function Rows(): (r: seq<User>)
      reads this
      ensures forall u :: u in r ==> u in users
    {
      Project(users, search, sortField, order)
    }

    /** A click on a column header: the same column flips the direction,
        another column becomes the sort column, ascending. */
    method HandleSort(field: SortField)
      modifies this`sortField, this`order
      ensures sortField == field
      ensures order == if old(sortField) == field then Flip(old(order)) else Asc
    {
      if sortField == field {
        order := Flip(order);
      } else {
        sortField := field;
        order := Asc;
      }
    }

    /** Typing in the search box. */
    method SetSearch(text: string)
      modifies this`search
      ensures search == text
    {
      search := text;
    }

    /** A row's delete button: the record waits for confirmation. */
    method RequestDelete(u: User)
      modifies this`deleteUserState
      ensures deleteUserState == Some(u)
    {
      deleteUserState := Some(u);
    }

    /** Closing the confirmation dialog: only the pending record is
        cleared, no request is made. */
    method CancelDelete()
      modifies this`deleteUserState
      ensures deleteUserState == None
    {
      deleteUserState := None;
    }

    /** Confirming the dialog. With no pending record nothing happens and
        no request is made. Otherwise the DELETE is sent; on success every
        record with the pending record's id leaves the working list, the
        same list is stored, the pending record is cleared and the notice
        opens; on failure nothing changes. `requested` tells whether a
        request was sent. */
    method ConfirmDelete(outcome: Outcome) returns (requested: bool)
      modifies this`users, this`storedUsers, this`deleteUserState, this`isDeleteSuccess
      ensures requested <==> old(deleteUserState).Some?
      ensures if requested && outcome == Succeeded then
                && users == RemoveById(old(users), old(deleteUserState).value.id)
                && storedUsers == users
                && deleteUserState == None
                && isDeleteSuccess
              else
                && users == old(users)
                && storedUsers == old(storedUsers)
                && deleteUserState == old(deleteUserState)
                && isDeleteSuccess == old(isDeleteSuccess)
      ensures requested && outcome == Succeeded ==>
                forall u :: u in Rows() ==> u in old(users) && u.id != old(deleteUserState).value.id
    {
      requested := deleteUserState.Some?;
      if requested && outcome == Succeeded {
        var updatedUsers := RemoveById(users, deleteUserState.value.id);
        users := updatedUsers;
        storedUsers := updatedUsers;
        deleteUserState := None;
        isDeleteSuccess := true;
      }
    }

    /** Closing the "deleted" notice. */
    method CloseDeleteSuccess()
      modifies this`isDeleteSuccess
      ensures !isDeleteSuccess
    {
      isDeleteSuccess := false;
    }
  }
}
