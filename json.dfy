/** The plain-data form that steps and nodes are serialised to. */
module JsonValues {

  datatype Json =
    | JNull
    | JNum(n: int)
    | JStr(s: string)
    | JArr(items: seq<Json>)
    | JObj(fields: map<string, Json>)
}
