/** Values of a product attribute (a colour's "red", a size's "XL"): the
    create with its attribute resolution and transaction, and the
    read-before-write update and delete over the value table. */
module ProductAttributeValues {
  import opened Wrappers
  import opened Store
  import opened Transaction

  datatype User = User(id: int)

  datatype ProductAttribute = ProductAttribute(id: int, name: string)

  /** One attribute-value row. `attributeID` is a form field that is not
      stored: on create it names the attribute to link. The extra price,
      the dates and the product links play no part in the logic modelled. */
  datatype ProductAttributeValue = ProductAttributeValue(
    id: int,
    createUser: Option<User>,
    updateUser: Option<User>,
    name: string,
    attribute: Option<ProductAttribute>,
    sequence: int,
    attributeID: int)

  /** `GetProductAttributeByID` as a lookup in the attribute table, whose
      read may fail with the driver error `lookupErr`. The create drops the
      error, so an absent key and a failed read both yield the nil
      attribute. */
  function LookupAttribute(attributes: map<int, ProductAttribute>, id: int, lookupErr: Option<Error>)
    : (a: Option<ProductAttribute>)
    ensures a.Some? <==> lookupErr.None? && id in attributes
    ensures a.Some? ==> a.value == attributes[id]
  {
    match Read(attributes, id, lookupErr)
    case Success(attr) => Some(attr)
    case Failure(_) => None
  }

  /** The row the create hands to `Insert`: both audit users set to the
      acting user and, when `attributeID` is non-zero, the attribute replaced
      by the lookup's result, whose error is dropped. */
  function Stamped(obj: ProductAttributeValue, addUser: Option<User>,
                   attributes: map<int, ProductAttribute>, lookupErr: Option<Error>): (r: ProductAttributeValue)
    ensures r.createUser == addUser && r.updateUser == addUser
    ensures obj.attributeID != 0 ==> r.attribute == LookupAttribute(attributes, obj.attributeID, lookupErr)
    ensures obj.attributeID == 0 ==> r.attribute == obj.attribute
    ensures r.(createUser := obj.createUser, updateUser := obj.updateUser, attribute := obj.attribute) == obj
  {
    var withUsers := obj.(createUser := addUser, updateUser := addUser);
    if obj.attributeID != 0 then withUsers.(attribute := LookupAttribute(attributes, obj.attributeID, lookupErr))
    else withUsers
  }

  /** What the create returns: the key from `Insert`, the collected errors,
      and the row it tried to insert. */
  datatype AddResult = AddResult(id: int, errs: seq<Error>, inserted: ProductAttributeValue)

  /** `AddProductAttributeValue`. `outcomes` are the results the begin,
      insert, rollback and commit steps would have; `lookupErr` is the
      outcome of the attribute lookup, made after the begin. */
  function AddProductAttributeValue(obj: ProductAttributeValue, addUser: Option<User>,
                                    attributes: map<int, ProductAttribute>, lookupErr: Option<Error>,
                                    outcomes: StepOutcomes)
    : (r: AddResult)
    ensures r.inserted.createUser == addUser && r.inserted.updateUser == addUser
    ensures obj.attributeID != 0 && lookupErr.None? && obj.attributeID in attributes ==>
      r.inserted.attribute == Some(attributes[obj.attributeID])
    ensures obj.attributeID != 0 && (lookupErr.Some? || obj.attributeID !in attributes) ==>
      r.inserted.attribute.None?
    ensures obj.attributeID == 0 ==> r.inserted.attribute == obj.attribute
    ensures r.inserted.name == obj.name && r.inserted.sequence == obj.sequence && r.inserted.id == obj.id
    ensures r.id == outcomes.insert.id
    ensures r.errs == FailedStepErrors(outcomes, StepsIssued(outcomes))
    ensures |r.errs| <= 3
  {
    var row := Stamped(obj, addUser, attributes, lookupErr);
    var created := InsertInTransaction(outcomes);
    ErrorsAreFailedSteps(outcomes);
    AddResult(created.id, created.errs, row)
  }

  /** The row a write stores for `m`: `attributeID` is not a column, so it
      is not written and reads back as 0; every stored field is `m`'s. */
  function Persisted(m: ProductAttributeValue): (r: ProductAttributeValue)
    ensures r.attributeID == 0
    ensures r.(attributeID := m.attributeID) == m
  {
    m.(attributeID := 0)
  }

  /** Every stored row has the form field at its zero value. */
  predicate FormFieldsUnstored(table: map<int, ProductAttributeValue>) {
    forall k | k in table :: table[k].attributeID == 0
  }

  /** `UpdateProductAttributeValueByID`: read-before-write by the row's key;
      the update writes the stored columns of `m`. */
  function UpdateProductAttributeValueByID(table: map<int, ProductAttributeValue>, m: ProductAttributeValue,
                                           readErr: Option<Error>, updateErr: Option<Error>)
    : (r: WriteResult<ProductAttributeValue>)
    ensures readErr.Some? ==> r.err == readErr && r.table == table
    ensures readErr.None? && m.id !in table ==> r.err == Some(NoRows) && r.table == table
    ensures r.err.Some? ==> r.table == table
    ensures readErr.None? && m.id in table && updateErr.Some? ==> r == WriteResult(table, updateErr)
    ensures readErr.None? && m.id in table && updateErr.None? ==>
      r.err.None? && r.table.Keys == table.Keys &&
      r.table[m.id].attributeID == 0 && r.table[m.id].(attributeID := m.attributeID) == m &&
      forall k | k in table && k != m.id :: r.table[k] == table[k]
    ensures FormFieldsUnstored(table) ==> FormFieldsUnstored(r.table)
  {
    UpdateByID(table, m.id, Persisted(m), readErr, updateErr)
  }

  /** `DeleteProductAttributeValue`: read-before-write, then delete by key. */
  function DeleteProductAttributeValue(table: map<int, ProductAttributeValue>, id: int,
                                       readErr: Option<Error>, deleteErr: Option<Error>)
    : (r: WriteResult<ProductAttributeValue>)
    ensures readErr.Some? ==> r.err == readErr && r.table == table
    ensures readErr.None? && id !in table ==> r.err == Some(NoRows) && r.table == table
    ensures r.err.Some? <==> r.table == table
    ensures readErr.None? && id in table && deleteErr.Some? ==> r == WriteResult(table, deleteErr)
    ensures readErr.None? && id in table && deleteErr.None? ==>
      r.err.None? && r.table.Keys == table.Keys - {id} &&
      forall k | k in r.table :: r.table[k] == table[k]
    ensures FormFieldsUnstored(table) ==> FormFieldsUnstored(r.table)
  {
    DeleteFailsIffUnchanged(table, id, readErr, deleteErr);
    DeleteByID(table, id, readErr, deleteErr)
  }
}
