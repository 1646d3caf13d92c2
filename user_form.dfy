/** The registration/edit form (src/enteties/UserForm/ui/UserForm.tsx): the
    upsert into the stored roster after a successful save, the submit
    handler with its focus order, the guard on autocomplete options that
    are already stored, and the gender-dependent role label. The remote
    PUT is reduced to its outcome. */
module UserForm {
  import opened Roster
  import opened Calendar
  import opened Rules

  // ---------------------------------------------------------------------
  // Upsert into the stored roster
  // ---------------------------------------------------------------------

  /** `users.findIndex(u => u.id === key)`: the first index whose id is
      `key`, or -1 when there is none. */
  function FindIndex(users: seq<User>, key: Option<string>): (r: int)
    ensures -1 <= r < |users|
    ensures r == -1 ==> forall j :: 0 <= j < |users| ==> users[j].id != key
    ensures r != -1 ==> users[r].id == key && forall j :: 0 <= j < r ==> users[j].id != key
    decreases |users|
  {
    if users == [] then -1
    else if users[0].id == key then 0
    else
      var i := FindIndex(users[1..], key);
      if i == -1 then -1 else i + 1
  }

  /** `i` is the first index of `users` whose id is `key`. */
  ghost predicate FirstWithId(users: seq<User>, key: Option<string>, i: int)
  {
    0 <= i < |users| && users[i].id == key && forall j :: 0 <= j < i ==> users[j].id != key
  }

  /** The stored roster after a successful save of `data` while `key` is the
      selected id: the first record whose id is `key` is overwritten in
      place, or, when there is none, `data` goes in front. */
  function Upsert(stored: seq<User>, key: Option<string>, data: User): (r: seq<User>)
    ensures forall i :: FirstWithId(stored, key, i) ==>
              && |r| == |stored|
              && r[i] == data
              && forall j :: 0 <= j < |r| && j != i ==> r[j] == stored[j]
    ensures (forall j :: 0 <= j < |stored| ==> stored[j].id != key) ==>
              && |r| == |stored| + 1
              && r[0] == data
              && r[1..] == stored
  {
    var i := FindIndex(stored, key);
    if i != -1 then stored[i := data] else [data] + stored
  }

  /** Saving the same record under its own id twice stores it once: the
      second save finds the slot the first one filled. */
  lemma UpsertIdempotent(stored: seq<User>, data: User)
    ensures Upsert(Upsert(stored, data.id, data), data.id, data) == Upsert(stored, data.id, data)
  {
    var key := data.id;
    var once := Upsert(stored, key, data);
    var i := FindIndex(stored, key);
    if i != -1 {
      assert FirstWithId(stored, key, i);
      assert FirstWithId(once, key, i);
      assert once[i := data] == once;
    } else {
      assert FirstWithId(once, key, 0);
      assert once[0 := data] == once;
    }
  }

  /** Two saves under the same selection use one slot: the first save
      leaves a record with the selected id, which the second overwrites. A
      form mounted with the default record (id "0") therefore keeps a
      single entry under that id however many people it saves from the
      main form. */
  lemma SecondSaveReusesSlot(stored: seq<User>, key: Option<string>, first: User, second: User)
    requires first.id == key
    ensures |Upsert(Upsert(stored, key, first), key, second)| == |Upsert(stored, key, first)|
    ensures Upsert(Upsert(stored, key, first), key, second) == Upsert(stored, key, second)
  {
    var once := Upsert(stored, key, first);
    var i := FindIndex(stored, key);
    if i != -1 {
      assert FirstWithId(stored, key, i);
      assert FirstWithId(once, key, i);
    } else {
      assert FirstWithId(once, key, 0);
      assert Upsert(once, key, second)[1..] == stored;
    }
  }

  /** The record the form is mounted with when none is handed over: id
      "0", empty name, gender and role, and a birth date that names no
      day. */
  const DefaultUser := User(Some("0"), "", "", "00.00.0000", "")

  /** A save whose record has no id, as the new-user dialog's record has
      none, under a selection that no stored record carries goes in front
      and leaves the selection unmatched, so the next such save goes in
      front as well: from a fresh form (id "0" selected), dialog saves keep
      adding id-less entries until a record with id "0" is stored. */
  lemma IdlessSavesAccumulate(stored: seq<User>, key: Option<string>, data: User)
    requires key.Some? && data.id == None
    requires FindIndex(stored, key) == -1
    ensures Upsert(stored, key, data) == [data] + stored
    ensures FindIndex(Upsert(stored, key, data), key) == -1
    ensures |Upsert(Upsert(stored, key, data), key, data)| == |stored| + 2
  {
    var once := [data] + stored;
    assert once[1..] == stored;
    assert FindIndex(once, key) == -1;
  }

  /** The slot is chosen by the selected id, whatever id the saved record
      carries: with an unsaved record (id null) in the roster, saving a new
      record while nothing is selected (as after opening that record for
      editing) overwrites it instead of adding one. */
  lemma UnsavedRecordIsOverwritten(stored: seq<User>, data: User, i: int)
    requires FirstWithId(stored, None, i)
    ensures |Upsert(stored, None, data)| == |stored|
    ensures Upsert(stored, None, data)[i] == data
  {
  }

  // ---------------------------------------------------------------------
  // Validation and focus order
  // ---------------------------------------------------------------------

  datatype Field = Name | Gender | BirthDate | Role

  /** The message each field's rules produced, `None` when it passed. */
  datatype FieldErrors = FieldErrors(
    name: Option<string>,
    gender: Option<string>,
    birthDate: Option<string>,
    role: Option<string>)

  function ErrorOf(e: FieldErrors, f: Field): Option<string>
  {
    match f
    case Name => e.name
    case Gender => e.gender
    case BirthDate => e.birthDate
    case Role => e.role
  }

  /** The position of a field in the focus order name, gender, birth date,
      role. */
  function Rank(f: Field): nat
  {
    match f
    case Name => 0
    case Gender => 1
    case BirthDate => 2
    case Role => 3
  }

  predicate IsValid(e: FieldErrors)
  {
    e.name == None && e.gender == None && e.birthDate == None && e.role == None
  }

  /** Every field's rules run on the form values (`trigger()`): name,
      gender and role are required, the birth date is required and must
      give an age of at least 18 on `today`. */
  function Validate(data: User, today: Date): (e: FieldErrors)
    requires ValidDate(today)
    ensures IsValid(e) <==>
              && data.name != "" && data.gender != "" && data.role != ""
              && ParseIso(data.birthDate).Some?
              && AgeYears(ParseIso(data.birthDate).value, today) >= MinimumAge
  {
    FieldErrors(
      Required(Some(data.name)),
      Required(Some(data.gender)),
      BirthDateRule(Some(data.birthDate), today),
      Required(Some(data.role)))
  }

  /** The field that receives focus: the first failing one in the order
      name, gender, birth date, role. */
  function FirstInvalid(e: FieldErrors): (r: Option<Field>)
    ensures r == None <==> IsValid(e)
    ensures r != None ==>
              && ErrorOf(e, r.value) != None
              && forall g :: Rank(g) < Rank(r.value) ==> ErrorOf(e, g) == None
  {
    if e.name != None then Some(Name)
    else if e.gender != None then Some(Gender)
    else if e.birthDate != None then Some(BirthDate)
    else if e.role != None then Some(Role)
    else None
  }

  /** `compoundData`: the form values with the typed name and the selected
      id laid over them. */
  function CompoundData(data: User, inputValue: string, selectedId: Option<string>): (r: User)
    ensures r.name == inputValue && r.id == selectedId
    ensures r.(name := data.name, id := data.id) == data
  {
    data.(name := inputValue, id := selectedId)
  }

  // ---------------------------------------------------------------------
  // Autocomplete options and the role menu
  // ---------------------------------------------------------------------

  /** A record of the remote roster as the autocomplete lists it. */
  datatype UserSummary = UserSummary(id: string, firstName: string, lastName: string)

  /** The text an option shows and, once chosen, puts in the name box. */
  function OptionLabel(option: UserSummary): string
  {
    option.firstName + " " + option.lastName
  }

  /** `storedUsers.some(user => user.id === id)` */
  predicate IsInLocalStorage(stored: seq<User>, id: string)
  {
    exists i :: 0 <= i < |stored| && stored[i].id == Some(id)
  }

  /** An option is already stored exactly when the upsert would find a slot
      for its id. */
  lemma InLocalStorageIff(stored: seq<User>, id: string)
    ensures IsInLocalStorage(stored, id) <==> FindIndex(stored, Some(id)) != -1
  {
  }

  const NurseValue := "Медсестра/Медбрат"

  datatype RoleOption = RoleOption(value: string, caption: string)

  /** The nurse option's label: the combined label before a gender is
      chosen, the masculine one for `male`, the feminine one otherwise. */
  function NurseLabel(gender: Option<string>): (r: string)
    ensures gender == None ==> r == NurseValue
    ensures gender != None ==> (r == "Медбрат" <==> gender == Some("male"))
    ensures gender != None ==> (r == "Медсестра" <==> gender != Some("male"))
  {
    if gender == None then NurseValue
    else if gender == Some("male") then "Медбрат"
    else "Медсестра"
  }

  /** The selectable roles, in menu order: every option shows its value
      except the nurse option, whose label follows the gender. */
  function RoleOptions(gender: Option<string>): (r: seq<RoleOption>)
    ensures |r| == 3
    ensures r[1].value == NurseValue && r[1].caption == NurseLabel(gender)
    ensures forall i :: 0 <= i < 3 && i != 1 ==> r[i].caption == r[i].value
  {
    [RoleOption("Доктор", "Доктор"), RoleOption(NurseValue, NurseLabel(gender)), RoleOption("Админ", "Админ")]
  }

  /** The stored role values do not depend on the gender; only the nurse
      label does. */
  lemma RoleValuesIgnoreGender(g1: Option<string>, g2: Option<string>)
    ensures |RoleOptions(g1)| == |RoleOptions(g2)| == 3
    ensures forall i :: 0 <= i < 3 ==> RoleOptions(g1)[i].value == RoleOptions(g2)[i].value
    ensures RoleOptions(g1)[1].value == NurseValue
    ensures forall i :: 0 <= i < 3 && i != 1 ==> RoleOptions(g1)[i] == RoleOptions(g2)[i]
  {
  }

  // ---------------------------------------------------------------------
  // The form's state
  // ---------------------------------------------------------------------

  /** The new-user dialog's record before anything is typed. */
  const EmptyUser := User(None, "", "", "", "")

  class Form {
    var storedUsers: seq<User>
    var selectedUserId: Option<string>
    var inputUserValue: string
    var inputUserGender: Option<string>
    var isSuccessModalOpen: bool
    var isNewUserModalOpen: bool
    var newUserFormData: User
    /** The field the last `setFocus` went to. */
    var focused: Option<Field>

    /** The form as it stands once mounted; a record handed over from the
        list (the edit flow) preselects its id, name and gender. */
    constructor (stored: seq<User>, initialData: Option<User>)
      ensures storedUsers == stored
      ensures initialData == None ==> selectedUserId == None && inputUserValue == "" && inputUserGender == None
      ensures initialData != None ==>
                && selectedUserId == initialData.value.id
                && inputUserValue == initialData.value.name
                && inputUserGender == Some(initialData.value.gender)
      ensures !isSuccessModalOpen && !isNewUserModalOpen
      ensures newUserFormData == EmptyUser && focused == None
    {
      storedUsers := stored;
      isSuccessModalOpen := false;
      isNewUserModalOpen := false;
      newUserFormData := EmptyUser;
      focused := None;
      match initialData {
        case None =>
          selectedUserId := None;
          inputUserValue := "";
          inputUserGender := None;
        case Some(u) =>
          selectedUserId := u.id;
          inputUserValue := u.name;
          inputUserGender := Some(u.gender);
      }
    }

    /** `updateUser`: the PUT is sent; only when it succeeds is the record
        upserted under the selected id and the success dialog opened. */
    method UpdateUser(compoundData: User, outcome: Outcome)
      modifies this`storedUsers, this`isSuccessModalOpen
      ensures outcome == Succeeded ==>
                storedUsers == Upsert(old(storedUsers), selectedUserId, compoundData) && isSuccessModalOpen
      ensures outcome == Failed ==>
                storedUsers == old(storedUsers) && isSuccessModalOpen == old(isSuccessModalOpen)
    {
      if outcome == Succeeded {
        var existingIndex := FindIndex(storedUsers, selectedUserId);
        if existingIndex != -1 {
          var updatedUsers := storedUsers;
          updatedUsers := updatedUsers[existingIndex := compoundData];
          isSuccessModalOpen := true;
          storedUsers := updatedUsers;
        } else {
          isSuccessModalOpen := true;
          storedUsers := [compoundData] + storedUsers;
        }
      }
    }

    /** `onSubmit`: when a rule fails, focus goes to the first failing field
        and nothing is sent; otherwise `compoundData` is sent (`sent`) and
        upserted on success. */
    method OnSubmit(data: User, today: Date, outcome: Outcome) returns (sent: Option<User>)
      requires ValidDate(today)
      modifies this`focused, this`storedUsers, this`isSuccessModalOpen
      ensures var errors := Validate(data, today);
        if !IsValid(errors) then
          && sent == None
          && focused == FirstInvalid(errors)
          && storedUsers == old(storedUsers)
          && isSuccessModalOpen == old(isSuccessModalOpen)
        else
          && sent == Some(CompoundData(data, inputUserValue, selectedUserId))
          && focused == old(focused)
          && (outcome == Succeeded ==>
                storedUsers == Upsert(old(storedUsers), selectedUserId, sent.value) && isSuccessModalOpen)
          && (outcome == Failed ==>
                storedUsers == old(storedUsers) && isSuccessModalOpen == old(isSuccessModalOpen))
    {
      var errors := Validate(data, today);
      if !IsValid(errors) {
        if errors.name != None {
          focused := Some(Name);
        } else if errors.gender != None {
          focused := Some(Gender);
        } else if errors.birthDate != None {
          focused := Some(BirthDate);
        } else if errors.role != None {
          focused := Some(Role);
        }
        return None;
      }
      var compoundData := CompoundData(data, inputUserValue, selectedUserId);
      UpdateUser(compoundData, outcome);
      sent := Some(compoundData);
    }

    /** Confirming the new-user dialog: its record is saved through the same
        upsert, keyed by the selected id, and the dialog closes whatever the
        outcome. */
    method HandleNewUserSubmit(outcome: Outcome)
      modifies this`storedUsers, this`isSuccessModalOpen, this`isNewUserModalOpen
      ensures !isNewUserModalOpen
      ensures outcome == Succeeded ==>
                storedUsers == Upsert(old(storedUsers), selectedUserId, newUserFormData) && isSuccessModalOpen
      ensures outcome == Failed ==>
                storedUsers == old(storedUsers) && isSuccessModalOpen == old(isSuccessModalOpen)
    {
      UpdateUser(newUserFormData, outcome);
      isNewUserModalOpen := false;
    }

    /** Typing in the name box. */
    method OnInputChange(value: string)
      modifies this`inputUserValue
      ensures inputUserValue == value
    {
      inputUserValue := value;
    }

    /** Choosing a gender; the nurse option's label follows it. */
    method OnGenderChange(gender: string)
      modifies this`inputUserGender
      ensures inputUserGender == Some(gender)
      ensures RoleMenu()[1].caption == if gender == "male" then "Медбрат" else "Медсестра"
    {
      inputUserGender := Some(gender);
    }

    /** A click on an autocomplete option: an option already in the stored
        roster is inert; any other becomes the selection, and the
        autocomplete puts its label in the name box (`onInputChange`). */
    method OnOptionClick(option: UserSummary) returns (selected: bool)
      modifies this`selectedUserId, this`inputUserValue
      ensures selected <==> !IsInLocalStorage(storedUsers, option.id)
      ensures selectedUserId == if selected then Some(option.id) else old(selectedUserId)
      ensures inputUserValue == if selected then OptionLabel(option) else old(inputUserValue)
    {
      var isInLocalStorage := IsInLocalStorage(storedUsers, option.id);
      selected := !isInLocalStorage;
      if selected {
        selectedUserId := Some(option.id);
        OnInputChange(OptionLabel(option));
      }
    }

    /** The role menu as shown for the chosen gender. */
    function RoleMenu(): (r: seq<RoleOption>)
      reads this
      ensures |r| == 3 && r[1].caption == NurseLabel(inputUserGender)
    {
      RoleOptions(inputUserGender)
    }

    method OpenNewUserModal()
      modifies this`isNewUserModalOpen
      ensures isNewUserModalOpen
    {
      isNewUserModalOpen := true;
    }

    method CloseNewUserModal()
      modifies this`isNewUserModalOpen
      ensures !isNewUserModalOpen
    {
      isNewUserModalOpen := false;
    }

    /** The new-user dialog's name field. The dialog has no id field and
        its birth-date picker writes the main form, so the dialog's record
        keeps the id and birth date it started with. */
    method SetNewUserName(name: string)
      modifies this`newUserFormData
      ensures newUserFormData == old(newUserFormData).(name := name)
    {
      newUserFormData := newUserFormData.(name := name);
    }

    /** The new-user dialog's gender field. */
    method SetNewUserGender(gender: string)
      modifies this`newUserFormData
      ensures newUserFormData == old(newUserFormData).(gender := gender)
    {
      newUserFormData := newUserFormData.(gender := gender);
    }

    /** The new-user dialog's role field. */
    method SetNewUserRole(role: string)
      modifies this`newUserFormData
      ensures newUserFormData == old(newUserFormData).(role := role)
    {
      newUserFormData := newUserFormData.(role := role);
    }

    method CloseSuccessModal()
      modifies this`isSuccessModalOpen
      ensures !isSuccessModalOpen
    {
      isSuccessModalOpen := false;
    }
  }
}
