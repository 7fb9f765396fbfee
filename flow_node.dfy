/**
  * Node.cpp: a node of the matching graph. `name` is the display name read
  * from the input, `index` its id (0 is the source, N+1 the sink), `level` its
  * breadth-first depth from the source in the current phase.
  * Nodes are held by value in the graph's node list, so a setter is a
  * function returning the updated record.
  */
module FlowNode {

  datatype Node = Node(name: string, index: int, level: int)
  {
    /** setName: only the name changes. */
    function SetName(newName: string): (n: Node)
      ensures n.name == newName && n.index == index && n.level == level
    {
      this.(name := newName)
    }

    /** setIndex: only the index changes. */
    function SetIndex(newIndex: int): (n: Node)
      ensures n.index == newIndex && n.name == name && n.level == level
    {
      this.(index := newIndex)
    }

    /** setLevel: only the level changes. */
    function SetLevel(newLevel: int): (n: Node)
      ensures n.level == newLevel && n.name == name && n.index == index
    {
      this.(level := newLevel)
    }
  }

  /** The default constructor: empty name, index 0, level 0. */
  function DefaultNode(): (n: Node)
    ensures n.name == "" && n.index == 0 && n.level == 0
  {
    Node("", 0, 0)
  }
}
