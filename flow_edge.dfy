/**
  * Edge.cpp: a directed unit-capacity edge between two node ids with a flag
  * telling whether it carries flow (is part of the matching). The endpoints
  * have getters only; the flag has a setter. Edges are held by value in the
  * graph's edge list.
  */
module FlowEdge {

  datatype Edge = Edge(source: int, destination: int, flow: bool)
  {
    /** setFlow: the flag becomes hasFlow, the endpoints stay. */
    function SetFlow(hasFlow: bool): (e: Edge)
      ensures e.flow == hasFlow
      ensures e.source == source && e.destination == destination
    {
      this.(flow := hasFlow)
    }
  }
}
