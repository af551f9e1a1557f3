/** The states of a task (include/linux/sched.h). */
module TaskStates {
  const RUNNING := 0
  const INTERRUPTIBLE := 1
  const UNINTERRUPTIBLE := 2
}
