/**
 The records the admin console exchanges with its REST gateway, the form
 drafts its pages edit, and the shape of one handler run: the page state it
 ends in together with the gateway requests it issued, in order.

 A gateway call is never performed here: each handler receives the call's
 outcome as a parameter, `Success(response)` or `Failure` (the promise was
 rejected: network error or non-2xx status).
 */
module Types {

  datatype Option<T> = None | Some(value: T) {
    /** The value, or `default` when absent (JavaScript's `x || default`
        for a field that may be missing). */
    function GetOr(default: T): T {
      match this
      case Some(v) => v
      case None => default
    }
  }

  /** The settled result of one gateway promise. */
  datatype Outcome<T> = Success(value: T) | Failure

  datatype User = User(id: string, username: string, balance: int)

  datatype Category = Category(id: string, name: string)

  /** A product's `categoryId`: a bare category id, or the whole category
      object when the server populated the reference. */
  datatype CategoryRef = ById(id: string) | Embedded(category: Category)

  /** A product as the server returns it. The page guards name, cost, emails
      and password against being absent, so they are optional here. */
  datatype Product = Product(
    id: string,
    name: Option<string>,
    cost: Option<int>,
    emails: Option<seq<string>>,
    password: Option<string>,
    categoryId: CategoryRef)

  /** The create and edit forms of the products page; `categoryId` is always a
      plain id here. */
  datatype ProductForm = ProductForm(
    name: string,
    cost: int,
    emails: seq<string>,
    password: string,
    categoryId: string)

  /** The blank product form, used at start and after a successful submit. */
  const EmptyProductForm := ProductForm("", 0, [], "", "")

  /** One request to the REST gateway, with the payload the page sends. */
  datatype Call =
    | ListUsers
    | UpdateUserBalance(userId: string, balance: int)
    | DeleteUser(userId: string)
    | ListCategories
    | CreateCategory(categoryName: string)
    | UpdateCategory(categoryId: string, categoryName: string)
    | DeleteCategory(categoryId: string)
    | ListProducts
    | CreateProduct(form: ProductForm)
    | UpdateProduct(productId: string, form: ProductForm)
    | DeleteProduct(productId: string)

  /** The page state a handler leaves behind and the gateway requests it
      issued, in the order it issued them. */
  datatype Step<S> = Step(state: S, calls: seq<Call>)
}
