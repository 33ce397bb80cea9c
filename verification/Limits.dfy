/** Resource limits of safety/limits.py: each check says whether a request stays within a limit. */
module Limits {
  datatype ResourceLimits = ResourceLimits(
    maxSessions: int,
    maxMemoryWriteBytes: int,
    maxConcurrentToolCalls: int,
    maxSessionOperations: int)
  {
    predicate SessionCountOk(activeSessions: int) { activeSessions < maxSessions }

    predicate MemoryWriteOk(length: int) { length <= maxMemoryWriteBytes }

    predicate ToolConcurrencyOk(activeCalls: int) { activeCalls < maxConcurrentToolCalls }

    predicate SessionOperationsOk(activeOperations: int) { activeOperations < maxSessionOperations }
  }
}
