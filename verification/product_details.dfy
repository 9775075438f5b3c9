/** Choice of the class a product's `details` object is validated as, by
    its `category` field. */
module ProductDetails {
  import opened Common

  /** The value of the `Computers` category. */
  const ComputersCategory: string := "Computers"

  /** The value that selects the test details class. */
  const TestCategory: string := "Test"

  datatype DetailsClass = ComputerDetails | TestDetails

  /** `ProductDetailsTypeFn`: a missing or empty category falls back to
      computer details; `Computers` and `Test` select their classes; any
      other category is a BadRequest. */
  function DetailsTypeFor(category: Option<string>): (r: Result<DetailsClass>)
    ensures (category.None? || category == Some("")) ==> r == Ok(ComputerDetails)
    ensures category == Some(ComputersCategory) ==> r == Ok(ComputerDetails)
    ensures category == Some(TestCategory) ==> r == Ok(TestDetails)
    ensures r.Err? <==> category.Some? && category.value !in {"", ComputersCategory, TestCategory}
    ensures r.Err? ==> r.error.BadRequest?
  {
    match category
    case None => Ok(ComputerDetails)
    case Some(c) =>
      if c == "" then Ok(ComputerDetails)
      else if c == ComputersCategory then Ok(ComputerDetails)
      else if c == TestCategory then Ok(TestDetails)
      else Err(BadRequest("invalid details.category input"))
  }

  /** The category a details class is selected by. */
  function CategoryOf(d: DetailsClass): string {
    match d
    case ComputerDetails => ComputersCategory
    case TestDetails => TestCategory
  }

  /** Naming a class's own category selects that class. */
  lemma DetailsTypeForCategoryOf(d: DetailsClass)
    ensures DetailsTypeFor(Some(CategoryOf(d))) == Ok(d)
  {
  }
}
