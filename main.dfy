/** The earlier tag predicate `check_tag` of main.py: an exact key and value
    match, with no wildcard for an empty value. */
module MainScript {
  import opened Ec2Tags

  /** True iff some tag has key `key` and value `value`, both exactly. Scans the
      list and stops at the first match. */
  function CheckTag(tags: seq<Tag>, key: string, value: string): (r: bool)
    ensures r <==> exists i :: 0 <= i < |tags| && tags[i].key == key && tags[i].value == value
  {
    if tags == [] then false
    else if tags[0].key == key && tags[0].value == value then true
    else CheckTag(tags[1..], key, value)
  }

  /** On an empty list, on a key absent from the list, or on a key present only
      with other values, the answer is false. */
  lemma CheckTagFalseCases(tags: seq<Tag>, key: string, value: string)
    ensures tags == [] ==> !CheckTag(tags, key, value)
    ensures (forall i :: 0 <= i < |tags| ==> tags[i].key != key) ==> !CheckTag(tags, key, value)
    ensures (forall i :: 0 <= i < |tags| && tags[i].key == key ==> tags[i].value != value) ==>
      !CheckTag(tags, key, value)
  {
  }

  /** For a non-empty value the two predicates agree; for every value the
      exact match implies the newer predicate's match. */
  lemma CheckTagAgreesWithTagExist(tags: seq<Tag>, key: string, value: string)
    ensures value != "" ==> CheckTag(tags, key, value) == TagExist(tags, key, value)
    ensures CheckTag(tags, key, value) ==> TagExist(tags, key, value)
  {
  }

  /** An empty value is not a wildcard here: with an empty value the answer
      needs a tag whose value is literally empty, so a list holding the key whose
      tags all carry values is rejected where `TagExist` accepts it. */
  lemma EmptyValueIsNotWildcard(tags: seq<Tag>, key: string)
    requires forall i :: 0 <= i < |tags| ==> tags[i].value != ""
    requires HasKey(tags, key)
    ensures !CheckTag(tags, key, "") && TagExist(tags, key, "")
  {
  }
}
