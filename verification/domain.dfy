/** The records the dashboard pages receive from the API
    (dashboard/src/types/index.ts), reduced to the fields the pages compute
    with. A `createdAt` time is its instant in milliseconds, as
    `new Date(createdAt).getTime()` gives it. */
module Domain {
  datatype ProjectStatus = ProjectActive | ProjectPaused | ProjectCompleted

  datatype Project = Project(id: string, name: string, description: string, status: ProjectStatus)

  datatype AgentStatus = Idle | AgentRunning | AgentError

  datatype Agent = Agent(id: string, name: string, status: AgentStatus)

  datatype TaskStatus = Pending | TaskRunning | Completed | Failed

  datatype Task = Task(id: string, title: string, status: TaskStatus, createdAt: int)
}
