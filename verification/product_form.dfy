/** The product form dialog: the schema its fields are validated with, the
    prefill when editing, and the choice between create and update. */
module ProductForm {
  import opened Common
  import Text
  import Products

  const TitleRequired: string := "El título es requerido"
  const CodeRequired: string := "El código es requerido"
  const CategoryRequired: string := "La categoría es requerida"

  /** The raw field values; the category select yields the chosen id as
      text, or `""` while nothing is chosen. */
  datatype Values = Values(title: string, code: string, categoryId: string, description: Option<string>)

  datatype Field = TitleField | CodeField | CategoryField

  datatype Issue = Issue(field: Field, message: string)

  /** The values after the schema: the category id read with
      `parseInt(val, 10)`, `None` standing for NaN. */
  datatype Parsed = Parsed(title: string, code: string, categoryId: Option<int>, description: Option<string>)

  datatype Validation = Valid(data: Parsed) | Invalid(issues: seq<Issue>)

  /** One issue when `failed`, else none. */
  function IssueIf(failed: bool, field: Field, message: string): (r: seq<Issue>)
    ensures |r| <= 1
    ensures failed <==> |r| == 1
    ensures |r| == 1 ==> r[0] == Issue(field, message)
  {
    if failed then [Issue(field, message)] else []
  }

  /** `productSchema`: title, code and category must each be non-empty,
      and every failing field is reported, in field order; the description
      is optional. A valid form yields its fields with the category id
      parsed. */
  function Validate(v: Values): (r: Validation)
    ensures r.Invalid? <==> v.title == "" || v.code == "" || v.categoryId == ""
    ensures r.Invalid? ==>
              && (Issue(TitleField, TitleRequired) in r.issues <==> v.title == "")
              && (Issue(CodeField, CodeRequired) in r.issues <==> v.code == "")
              && (Issue(CategoryField, CategoryRequired) in r.issues <==> v.categoryId == "")
              && |r.issues| <= 3
    ensures r.Valid? ==>
              r.data == Parsed(v.title, v.code, Text.ParseInt(v.categoryId), v.description)
  {
    var issues := IssueIf(v.title == "", TitleField, TitleRequired)
                  + IssueIf(v.code == "", CodeField, CodeRequired)
                  + IssueIf(v.categoryId == "", CategoryField, CategoryRequired);
    if issues != [] then Invalid(issues)
    else Valid(Parsed(v.title, v.code, Text.ParseInt(v.categoryId), v.description))
  }

  /** The form as opened: the values and whether the code field is
      disabled. */
  datatype Form = Form(values: Values, codeDisabled: bool)

  /** The defaults of a new product. */
  const Defaults: Values := Values("", "", "", Some(""))

  /** The description as the form shows it: `description || ''`. */
  function DescriptionText(d: Option<string>): (text: string)
    ensures d.Some? ==> text == d.value
    ensures d.None? ==> text == ""
  {
    if d.Some? then d.value else ""
  }

  /** The prefill: editing copies the product's title, code, category id
      (as text) and description (empty when it has none) and disables the
      code; creating starts from the defaults. */
  function Prefill(editing: Option<Products.Product>): (f: Form)
    ensures f.codeDisabled <==> editing.Some?
    ensures editing.None? ==> f.values == Defaults
    ensures editing.Some? ==>
              && f.values.title == editing.value.title && f.values.code == editing.value.code
              && Text.ParseInt(f.values.categoryId) == Some(editing.value.categoryId)
              && f.values.description == Some(DescriptionText(editing.value.description))
  {
    match editing
    case None => Form(Defaults, false)
    case Some(p) =>
      Text.ParseIntOfIntToString(p.categoryId);
      Form(Values(p.title, p.code, Text.IntToString(p.categoryId), Some(DescriptionText(p.description))), true)
  }

  /** Submitting the empty form reports all three required fields, in
      field order. */
  lemma EmptyFormReportsEveryRequiredField()
    ensures Validate(Prefill(None).values)
            == Invalid([Issue(TitleField, TitleRequired), Issue(CodeField, CodeRequired),
                        Issue(CategoryField, CategoryRequired)])
  {
  }

  /** A product with a title and a code passes validation unchanged when
      its prefilled form is submitted as is. */
  lemma PrefillValidates(p: Products.Product)
    requires p.title != "" && p.code != ""
    ensures Validate(Prefill(Some(p)).values)
            == Valid(Parsed(p.title, p.code, Some(p.categoryId), Some(DescriptionText(p.description))))
  {
    Text.ParseIntOfIntToString(p.categoryId);
  }

  /** The request a valid submit sends: an update of the product being
      edited, or else a create. */
  datatype Request = CreateRequest(data: Parsed) | UpdateRequest(id: int, data: Parsed)

  function OnSubmit(editing: Option<Products.Product>, data: Parsed): (r: Request)
    ensures r.UpdateRequest? <==> editing.Some?
    ensures r.data == data
    ensures r.UpdateRequest? ==> r.id == editing.value.id
  {
    if editing.Some? then UpdateRequest(editing.value.id, data) else CreateRequest(data)
  }

  /** The service patch an update request carries. */
  function ToPatch(data: Parsed): (patch: Products.Patch)
    ensures patch.title == Some(data.title) && patch.code == Some(data.code)
    ensures patch.categoryId == data.categoryId && patch.description == data.description
  {
    Products.Patch(Some(data.code), Some(data.title), data.description, data.categoryId)
  }

  /** Saving an edited product without touching the form writes back its
      own title, code and category; only a missing description becomes an
      empty one. */
  lemma UnchangedEditKeepsProduct(t: Products.Table, categories: set<int>, p: Products.Product)
    requires Products.GetProduct(t, p.id) == Ok(p)
    requires p.title != "" && p.code != "" && p.categoryId in categories
    ensures var req := OnSubmit(Some(p), Validate(Prefill(Some(p)).values).data);
            var r := Products.UpdateProduct(t, categories, req.id, ToPatch(req.data));
            r.Ok? && r.value.1 == p.(description := Some(DescriptionText(p.description)))
  {
    PrefillValidates(p);
    var k := Products.FindIndex(t, p.id).value;
    assert t[k] == p;
  }
}
