/** Node ids as the stack compares them: the numeric encodings of one number are the same id. */
module NodeIds {
  // A GUID identifier is not modelled.
  datatype Identifier = Numeric(n: nat) | Text(s: string) | ByteString(b: seq<nat>) {
    predicate IsNull() {
      match this
      case Numeric(n) => n == 0
      case Text(s) => s == ""
      case ByteString(b) => b == []
    }
  }

  datatype NodeId = NodeId(namespaceIndex: nat, identifier: Identifier) {
    predicate IsNull() {
      namespaceIndex == 0 && identifier.IsNull()
    }
  }
}
