/** The fields of the add/edit dialogs, their validation errors and the
    rule that both fields are required. */
module FormState {
  import opened Text

  /** The two inputs of either dialog, named by their `name` attribute. */
  datatype Field = Title | Body

  /** `formdata` and `errors` have this one shape: a title and a body. */
  datatype Fields = Fields(title: string, body: string) {

    /** `fields[name]`. */
    function Get(f: Field): string {
      match f
      case Title => title
      case Body => body
    }

    /** `{ ...fields, [name]: v }`: sets one field and keeps the other. */
    function With(f: Field, v: string): (r: Fields)
      ensures r.Get(f) == v
      ensures forall g :: g != f ==> r.Get(g) == Get(g)
    {
      match f
      case Title => this.(title := v)
      case Body => this.(body := v)
    }
  }

  /** `{ title: "", body: "" }`, the initial and reset value of both records. */
  const Empty := Fields("", "")

  const TitleRequired := "Title is required"
  const BodyRequired := "Body is required"

  /** The form passes validation: neither field is blank after trimming. */
  predicate IsValid(f: Fields) {
    !IsBlank(f.title) && !IsBlank(f.body)
  }

  /** The errors validation records: each field's message is set exactly when
      that field is blank, whatever the other field holds. */
  function RequiredErrors(f: Fields): (e: Fields)
    ensures e.title == TitleRequired || e.title == ""
    ensures e.body == BodyRequired || e.body == ""
    ensures e.title == TitleRequired <==> IsBlank(f.title)
    ensures e.body == BodyRequired <==> IsBlank(f.body)
  {
    Fields(if IsBlank(f.title) then TitleRequired else "",
           if IsBlank(f.body) then BodyRequired else "")
  }

  /** The form is valid exactly when validation records no error. */
  lemma ValidIffNoErrors(f: Fields)
    ensures IsValid(f) <==> RequiredErrors(f) == Empty
  {
  }

  /** The form is valid exactly when both fields hold a character that is not whitespace. */
  lemma ValidIffVisibleText(f: Fields)
    ensures IsValid(f) <==>
      (exists i :: 0 <= i < |f.title| && !IsWhitespace(f.title[i])) &&
      (exists j :: 0 <= j < |f.body| && !IsWhitespace(f.body[j]))
  {
    BlankIffAllWhitespace(f.title);
    BlankIffAllWhitespace(f.body);
  }

  /** A one-letter field that is not whitespace is not blank. */
  lemma LetterNotBlank(c: char)
    requires !IsWhitespace(c)
    ensures !IsBlank([c])
  {
    BlankIffAllWhitespace([c]);
  }

  /** An empty title alone is reported, and "T"/"B" passes. */
  lemma ValidationExamples()
    ensures RequiredErrors(Fields("", "B")) == Fields(TitleRequired, "")
    ensures IsValid(Fields("T", "B"))
  {
    LetterNotBlank('B');
    LetterNotBlank('T');
    assert IsBlank("");
  }
}
