/** The detail page: the record with the requested id, looked up in the
    loaded list, and what the page shows for the lookup's result. */
module StudentDetail {

  import opened Wrappers
  import opened Records

  /** `data.find(student => student.id === id)`: the first record, in list
      order, whose id is the requested one, or nothing when none has it. */
  function FindById(data: seq<Student>, id: int): (found: Option<Student>)
    ensures found.None? <==> forall k :: 0 <= k < |data| ==> data[k].id != id
    ensures found.Some? ==> found.value.id == id
    ensures found.Some? ==>
      exists k :: 0 <= k < |data| && data[k] == found.value && forall j :: 0 <= j < k ==> data[j].id != id
  {
    if data == [] then None
    else if data[0].id == id then
      Some(data[0])
    else
      var rest := FindById(data[1..], id);
      assert forall k :: 1 <= k < |data| ==> data[k] == data[1..][k - 1];
      if rest.Some? then
        var k :| 0 <= k < |data[1..]| && data[1..][k] == rest.value
          && forall j :: 0 <= j < k ==> data[1..][j].id != id;
        assert data[k + 1] == rest.value;
        assert forall j :: 0 <= j < k + 1 ==> data[j].id != id;
        rest
      else
        rest
  }

  /** With unique ids, the lookup returns the one record with that id. */
  lemma FindUniqueId(data: seq<Student>, k: nat)
    requires k < |data|
    requires forall i, j :: 0 <= i < j < |data| ==> data[i].id != data[j].id
    ensures FindById(data, data[k].id) == Some(data[k])
  {
  }

  /** What the page shows: a loading message, or the record's portrait,
      names, form and SEND status. The id itself is not shown. */
  datatype DetailView =
    | Loading
    | Profile(imageUrl: string, forename: string, surname: string, form: string, sendLabel: string)

  /** The page's state before the load has finished. */
  const INITIAL: Option<Student> := None

  /** Renders the page's state: without a record only the loading message,
      with one the record's fields and "Yes"/"No" for its flag. */
  function Render(student: Option<Student>): (view: DetailView)
    ensures view.Loading? <==> student.None?
    ensures student.Some? ==>
      && view.forename == student.value.forename && view.surname == student.value.surname
      && view.form == student.value.form && view.imageUrl == student.value.imageUrl
      && (view.sendLabel == "Yes" <==> student.value.send)
      && (view.sendLabel == "No" <==> !student.value.send)
  {
    match student
    case None => Loading
    case Some(st) => Profile(st.imageUrl, st.forename, st.surname, st.form, if st.send then "Yes" else "No")
  }

  /** An id that no record has renders exactly like a load still in flight:
      the two cannot be told apart on the page. */
  lemma NotFoundLooksLikeLoading(data: seq<Student>, id: int)
    ensures Render(FindById(data, id)) == Render(INITIAL)
      <==> forall k :: 0 <= k < |data| ==> data[k].id != id
  {
  }

  /** A shown profile always belongs to a record with the requested id. */
  lemma ShownProfileHasRequestedId(data: seq<Student>, id: int)
    ensures Render(FindById(data, id)).Profile? ==>
      exists k :: 0 <= k < |data| && data[k].id == id && Render(FindById(data, id)) == Render(Some(data[k]))
  {
  }
}
