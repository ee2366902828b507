/**
 Events of the append-only log and the readers the folds apply to their JSON content.
 Only the fields the folds look at are kept; `model_meta` is reduced to its model id.
 */
module Events {
  import opened Wrappers

  datatype Json = Str(s: string) | Num(i: int) | Obj(fields: map<string, Json>) | Other

  datatype Event = Event(id: string, ts: string, validTime: Option<string>, eventType: string,
                         content: Json, modelId: Option<string>)

  const SUPERSEDE := "supersede"
  const PAGE := "page"
  const FILE_INGESTED := "file_ingested"

  /** `content.get(key)`: a member of a JSON object, if there is one. */
  function Get(content: Json, key: string): Option<Json> {
    if content.Obj? && key in content.fields then Some(content.fields[key]) else None
  }

  /** `content.get(key)?.as_str()?` */
  function GetStr(content: Json, key: string): Option<string> {
    match Get(content, key)
    case Some(Str(s)) => Some(s)
    case _ => None
  }

  /** `content.get(key).and_then(as_i64)`: integers outside the 64-bit range are not read. */
  function GetI64(content: Json, key: string): Option<int> {
    match Get(content, key)
    case Some(Num(i)) => if -0x8000_0000_0000_0000 <= i < 0x8000_0000_0000_0000 then Some(i) else None
    case _ => None
  }

  /** The log never assigns the same id twice. */
  ghost predicate UniqueIds(events: seq<Event>) {
    forall i, j :: 0 <= i < j < |events| ==> events[i].id != events[j].id
  }

  function Ids(events: seq<Event>): set<string> {
    set i | 0 <= i < |events| :: events[i].id
  }
}
