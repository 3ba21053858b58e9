/** src/domain/relation.py: one directed edge between two node keys with its styling.
    The source only assigns fields once the relation exists, so it is a value here;
    the parser's later field writes become record updates. */
module DomainRelation {
  import opened Optional

  datatype Relation = Relation(
    sourceKey: string,
    targetKey: string,
    text: string,     // the edge label, "" when the line had none
    style: Option<string>,
    color: Option<string>,
    cssClass: Option<string>,
    arrowhead: Option<string>,
    arrowtail: Option<string>,
    dir: Option<string>)  // Graphviz direction: forward, back, both or none

  /** `Relation(source_key, target_key, label)`: the endpoints and the label are kept as
      given (an empty label stays empty) and every styling field starts unset. */
  function NewRelation(sourceKey: string, targetKey: string, text: string): (r: Relation)
    ensures r.sourceKey == sourceKey && r.targetKey == targetKey && r.text == text
    ensures r.style.None? && r.color.None? && r.cssClass.None?
    ensures r.arrowhead.None? && r.arrowtail.None?
    ensures r.dir.None?
  {
    Relation(sourceKey, targetKey, text, None, None, None, None, None, None)
  }
}
