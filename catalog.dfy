/** The column-name catalog of a summary dataset: the ordered column names
    read from the dataset's attribute, and the lookup of one name. */
module Catalog {

  /** Position of the first name equal to `name`, or the number of names when
      there is none: the distance from the start to where a linear find stops. */
  function IndexOf(names: seq<string>, name: string): (i: nat)
    ensures i <= |names|
    ensures i < |names| ==> names[i] == name
    ensures forall j :: 0 <= j < i ==> names[j] != name
    decreases |names|
  {
    if names == [] then 0
    else if names[0] == name then 0
    else 1 + IndexOf(names[1..], name)
  }
}
