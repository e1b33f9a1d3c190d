/** The create-task form: field edits, and a submit that refuses a blank title. */
module TaskForm {
  import opened Text

  datatype FormData = FormData(title: string, description: string)

  const EmptyForm := FormData("", "")

  /** `handleChange`: the input named `name` takes the new value. The form has
      inputs named `title` and `description` only; any other name would add a
      key nothing reads, so both fields stay. */
  function HandleChange(f: FormData, name: string, value: string): (r: FormData)
    ensures name == "title" ==> r.title == value && r.description == f.description
    ensures name == "description" ==> r.description == value && r.title == f.title
    ensures name != "title" && name != "description" ==> r == f
  {
    if name == "title" then f.(title := value)
    else if name == "description" then f.(description := value)
    else f
  }

  /** `handleSubmit`: the new form state and the `onSubmit` calls made. */
  function HandleSubmit(f: FormData): (r: (FormData, seq<FormData>))
    ensures IsBlank(f.title) ==> r.0 == f && r.1 == []
    ensures !IsBlank(f.title) ==> r.1 == [f] && r.0 == EmptyForm
  {
    if Trim(f.title) != "" then (EmptyForm, [f]) else (f, [])
  }

  /** A title of spaces, tabs or line breaks alone is not submitted. */
  lemma WhitespaceTitleRefused(description: string)
    ensures HandleSubmit(FormData(" \t\n", description)).1 == []
  {
    assert IsBlank(" \t\n");
  }

  /** A title with a visible character is submitted once even with surrounding blanks. */
  lemma PaddedTitleSubmitted(description: string)
    ensures HandleSubmit(FormData("  a ", description)).1 == [FormData("  a ", description)]
  {
    assert !IsJsWhitespace("  a "[2]);
  }
}
