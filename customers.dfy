/** The records the storefront's customer query returns (server.js:93-110):
    one customer node and the page that carries a batch of them. */
module Customers {
  import opened Wrappers

  /** One `{ key value }` node of a customer's `custom` metafields. A value the
      response leaves out or sets to `null` is `None`. */
  datatype Metafield = Metafield(key: string, value: Option<string>)

  /** One element of `customers.nodes`. `metafields` is `None` when the
      metafield connection or its `nodes` list is missing from the response. */
  datatype Customer = Customer(
    email: Option<string>,
    displayName: Option<string>,
    note: Option<string>,
    company: Option<string>,
    metafields: Option<seq<Metafield>>)

  /** One `customers` connection: its nodes and its `pageInfo`. */
  datatype Page = Page(nodes: seq<Customer>, hasNextPage: bool, endCursor: Option<string>)

  /** JavaScript truthiness of an optional string: present and non-empty. */
  predicate Truthy(v: Option<string>) {
    v.Some? && v.value != ""
  }
}
