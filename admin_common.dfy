/** What the four admin views (frontend/src/pages/Admin.jsx, AdminPapers.jsx,
    AdminResearch.jsx, AdminDashboard.jsx) have in common: the calls they make to the
    backend, the truthiness of `editingId`, the delete confirmation text, and the
    number inputs read with `parseInt`. */
module AdminCommon {
  import opened Wrappers
  import opened Text
  import opened Listing

  /** A call to the backend, recorded in the order the view issues it. Whether it
      succeeds is given to the handler that makes it. */
  datatype Call<F> = Verify | FetchAll | Create(form: F) | Update(id: int, form: F) | Delete(id: int)

  /** `if (editingId)`: null and 0 are falsy. */
  predicate Editing(editingId: Option<int>) {
    TruthyInt(editingId)
  }

  /** The call `handleSubmit` makes: an update of the record being edited, a creation
      otherwise. */
  function SaveCall<F>(editingId: Option<int>, form: F): (c: Call<F>)
    ensures c.Update? <==> Editing(editingId)
    ensures c.Create? <==> !Editing(editingId)
    ensures c.Update? ==> c.id == editingId.value && c.form == form
    ensures c.Create? ==> c.form == form
  {
    if Editing(editingId) then Update(editingId.value, form) else Create(form)
  }

  /** The title the delete prompt names: `rows.find(r => r.id === id)`'s title, or
      the fallback when no listed record has that id. */
  function RecordTitle<T(!new)>(rows: seq<T>, id: int, idOf: T -> int, titleOf: T -> string, fallback: string): (t: string)
    ensures (forall x :: x in rows ==> idOf(x) != id) ==> t == fallback
    ensures (exists x :: x in rows && idOf(x) == id) ==> exists x :: x in rows && idOf(x) == id && t == titleOf(x)
  {
    match First(rows, (x: T) => idOf(x) == id)
    case Some(x) => titleOf(x)
    case None => fallback
  }

  /** With ids unique in the list, the prompt names the very record being deleted. */
  lemma RecordTitleOfListed<T(!new)>(rows: seq<T>, idOf: T -> int, titleOf: T -> string, fallback: string, x: T)
    requires x in rows
    requires forall y :: y in rows && idOf(y) == idOf(x) ==> y == x
    ensures RecordTitle(rows, idOf(x), idOf, titleOf, fallback) == titleOf(x)
  {
    FirstUnique(rows, (y: T) => idOf(y) == idOf(x), x);
  }

  const AreYouSure := "Are you sure you want to delete \""
  const CannotBeUndone := "\"?\n\nThis action cannot be undone."

  /** The confirmation of the blog and publication views. */
  function DeletePrompt(title: string): (prompt: string)
    ensures |prompt| == |AreYouSure| + |title| + |CannotBeUndone|
    ensures prompt[..|AreYouSure|] == AreYouSure
    ensures prompt[|AreYouSure|..|AreYouSure| + |title|] == title
    ensures prompt[|AreYouSure| + |title|..] == CannotBeUndone
  {
    AreYouSure + title + CannotBeUndone
  }

  const DeleteQuestion := "Delete \""
  const CannotUndo := "\"?\n\nThis cannot be undone."

  /** The shorter confirmation of the research view. */
  function ShortDeletePrompt(title: string): (prompt: string)
    ensures |prompt| == |DeleteQuestion| + |title| + |CannotUndo|
    ensures prompt[..|DeleteQuestion|] == DeleteQuestion
    ensures prompt[|DeleteQuestion|..|DeleteQuestion| + |title|] == title
    ensures prompt[|DeleteQuestion| + |title|..] == CannotUndo
  {
    DeleteQuestion + title + CannotUndo
  }

  /** Two different titles give two different prompts: the user is always asked
      about the record the prompt names. */
  lemma DeletePromptInjective(a: string, b: string)
    requires DeletePrompt(a) == DeletePrompt(b)
    ensures a == b
  {
    var p := DeletePrompt(a);
    assert |a| == |b|;
    assert a == p[|AreYouSure|..|AreYouSure| + |a|] == b;
  }

  /** `parseInt(value) || fallback`: a number other than 0, or the fallback for NaN and 0. */
  function NumberOr(value: string, fallback: int): (n: int)
    ensures ParseInt(value).Some? && ParseInt(value).value != 0 ==> n == ParseInt(value).value
    ensures ParseInt(value).None? || ParseInt(value) == Some(0) ==> n == fallback
  {
    match ParseInt(value)
    case Some(v) => if v != 0 then v else fallback
    case None => fallback
  }

  /** Typing a number gives that number back; a zero gives the fallback. */
  lemma NumberOrOfNumeral(n: nat, fallback: int)
    ensures NumberOr(NatToString(n), fallback) == if n == 0 then fallback else n
  {
    ParseNumeral(n);
  }

  /** A minus sign in front of the digits gives the negative number. */
  lemma NumberOrOfNegative(n: nat, fallback: int)
    ensures NumberOr("-" + NatToString(n), fallback) == if n == 0 then fallback else -(n as int)
  {
    ParseNumeral(n);
  }

  /** An empty input, what the browser reports for a cleared number field, gives
      the fallback. */
  lemma NumberOrOfEmpty(fallback: int)
    ensures NumberOr("", fallback) == fallback
  {
    ParseIntDefined("");
  }
}
