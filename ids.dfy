/** Arena identifiers. An identifier is the slot of its entity in the arena
    that allocated it; it carries no payload and is compared structurally. */
module Ids {
  datatype TypeId = TypeId(index: nat)
  datatype GlobalId = GlobalId(index: nat)
  datatype FunctionId = FunctionId(index: nat)
  datatype TagId = TagId(index: nat)
  datatype ImportId = ImportId(index: nat)
}
