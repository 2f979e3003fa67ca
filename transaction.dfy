/**
 * The `Transaction` record: four required text fields, each populated under an alias,
 * and `get_object`, which dumps the record keyed by field name.
 */
module Transactions {
  import opened Wrappers

  /** One parsed purchase. Fields stay as extracted text; empty strings are accepted. */
  datatype Transaction = Transaction(card: string, merchant: string, amount: string, date: string)

  const CardAlias := "Credit Card"
  const MerchantAlias := "Merchant"
  const AmountAlias := "Paid Amount"
  const DateAlias := "Date"

  /** The keyword arguments the extractor passes: each value under its field's alias. */
  function AliasDict(card: string, merchant: string, amount: string, date: string): (d: map<string, string>)
    ensures d.Keys == {CardAlias, MerchantAlias, AmountAlias, DateAlias}
    ensures d[CardAlias] == card && d[MerchantAlias] == merchant && d[AmountAlias] == amount && d[DateAlias] == date
  {
    map[CardAlias := card, MerchantAlias := merchant, AmountAlias := amount, DateAlias := date]
  }

  /**
   * Validation of `Transaction(**data)`: every field is required and is read under its alias
   * only (field names are not accepted as keys), and keys that are not aliases are ignored.
   * A missing alias is a validation error, modelled as None.
   */
  function FromAliases(data: map<string, string>): (r: Option<Transaction>)
    ensures r.Some? <==> {CardAlias, MerchantAlias, AmountAlias, DateAlias} <= data.Keys
    ensures r.Some? ==>
              && r.value.card == data[CardAlias] && r.value.merchant == data[MerchantAlias]
              && r.value.amount == data[AmountAlias] && r.value.date == data[DateAlias]
  {
    if CardAlias in data && MerchantAlias in data && AmountAlias in data && DateAlias in data then
      Some(Transaction(data[CardAlias], data[MerchantAlias], data[AmountAlias], data[DateAlias]))
    else None
  }

  /** `get_object`: the record dumped by field name (not by alias); no field is ever None,
      so `exclude_none` drops nothing. */
  function GetObject(t: Transaction): (m: map<string, string>)
    ensures m.Keys == {"card", "merchant", "amount", "date"}
    ensures m["card"] == t.card && m["merchant"] == t.merchant && m["amount"] == t.amount && m["date"] == t.date
  {
    map["card" := t.card, "merchant" := t.merchant, "amount" := t.amount, "date" := t.date]
  }

  /** Any four strings, empty ones included, make a Transaction. */
  lemma AnyStringsAccepted(card: string, merchant: string, amount: string, date: string)
    ensures FromAliases(AliasDict(card, merchant, amount, date)) == Some(Transaction(card, merchant, amount, date))
  {
  }

  /** The dump of `get_object` cannot be fed back to the constructor: its keys are field
      names, and the constructor only reads aliases. */
  lemma GetObjectNotReconstructible(t: Transaction)
    ensures FromAliases(GetObject(t)) == None
  {
    assert CardAlias !in GetObject(t).Keys;
  }
}
