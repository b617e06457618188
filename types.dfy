/** The records of the employee hierarchy (src/types/index.ts). */
module Types {
  import opened Wrappers

  /** A flat employee record; `managerId == None` marks a top-level employee. */
  datatype Employee = Employee(id: int, name: string, role: string, department: string, managerId: Option<int>)

  /** A node of the built hierarchy: the record's fields plus its subordinates, its expansion flag and its level. */
  datatype EmployeeNode = EmployeeNode(
    id: int,
    name: string,
    role: string,
    department: string,
    managerId: Option<int>,
    subordinates: seq<EmployeeNode>,
    isExpanded: bool,
    level: int)
  {
    /** The record this node was spread from. */
    function Record(): Employee
    {
      Employee(id, name, role, department, managerId)
    }
  }

  /** The name, role and department criteria; an empty string means no constraint. */
  datatype SearchFilters = SearchFilters(name: string, role: string, department: string)
}
