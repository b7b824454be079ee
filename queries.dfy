/**
 * The parts of an ORM query that the helpers read or change, as plain values.
 *
 * SQLAlchemy's `Query` is generative: `order_by` and `options` return a new
 * query and leave the old one alone, so the query is a datatype here and
 * every operation returns an updated copy.
 */
module Queries {

  /** A mapped property of a class: a column property (with the name of its first column) or anything else. */
  datatype Property =
    | ColumnProperty(key: string, firstColumn: string)
    | OtherProperty(key: string)  // relationship, composite, synonym, ...

  /**
   * A mapped class, or a joined object that has a table: its table's name
   * and column names, the attribute names `getattr` finds on it, and the
   * mapped properties its class manager lists.
   */
  datatype Entity = Entity(
    tableName: string,
    columns: set<string>,
    attributes: set<string>,
    properties: set<Property>)

  /**
   * One element of `query._entities`: a whole mapped class, or a column
   * expression (possibly carrying a label) drawn from the entity `entity_zero`.
   * An empty `labelName` stands for a missing or empty label.
   */
  datatype QueryEntity =
    | MapperEntity(entity: Entity)
    | ColumnEntity(entity: Entity, labelName: string)

  /** `asc` and `desc`. */
  datatype Direction = Asc | Desc

  /** What an ORDER BY clause orders by: a result label, or an attribute of an entity. */
  datatype Target = Label(name: string) | Attribute(entity: Entity, name: string)

  datatype Ordering = Ordering(direction: Direction, target: Target)

  /**
   * A query: its selected entities (`_entities`), its joined entities
   * (`_join_entities`), its ORDER BY clauses in order, and the property keys
   * that `defer` options mark as deferred.
   */
  datatype Query = Query(
    entities: seq<QueryEntity>,
    joinEntities: seq<Entity>,
    orderBy: seq<Ordering>,
    deferred: set<string>)
  {
    /** `query.order_by(o)`: appends one ordering clause. */
    function OrderBy(o: Ordering): Query {
      this.(orderBy := orderBy + [o])
    }

    /** `query.options(defer(key))`: marks one property as deferred. */
    function Defer(key: string): Query {
      this.(deferred := deferred + {key})
    }
  }
}
