/** The fixed data the tracker starts from: the category tags and the goals seeded on first run. */
module Defaults {

  /** A goal of the built-in starter list: a title and its categories. */
  datatype DefaultGoal = DefaultGoal(title: string, categories: seq<string>)

  /** The category tags a goal can carry. */
  const GoalCategories: seq<string> :=
    ["Health", "Learning", "Productivity", "Mindfulness", "Finance", "Other"]

  /** The goals seeded when no goals are stored yet, in display order. */
  const DefaultGoalsList: seq<DefaultGoal> := [
    DefaultGoal("Meditate", ["Mindfulness"]),
    DefaultGoal("Practice ASL", ["Learning"]),
    DefaultGoal("Practice Spanish", ["Learning"]),
    DefaultGoal("Walk", ["Health", "Mindfulness"]),
    DefaultGoal("Hit Protein Goal", ["Health"]),
    DefaultGoal("Pamper / Self Care", ["Mindfulness"]),
    DefaultGoal("Complete the Crossword", ["Learning"]),
    DefaultGoal("Cook", ["Productivity"]),
    DefaultGoal("Ali", ["Other"]),
    DefaultGoal("Clean", ["Productivity"]),
    DefaultGoal("Read", ["Learning"]),
    DefaultGoal("Write", ["Learning"]),
    DefaultGoal("Journal", ["Mindfulness"]),
    DefaultGoal("Workout", ["Health"])
  ]

  /** Every starter goal has a title and at least one category, all drawn from the fixed tags. */
  predicate StarterListSound(defaults: seq<DefaultGoal>) {
    forall i :: 0 <= i < |defaults| ==>
      && |defaults[i].title| > 0
      && |defaults[i].categories| > 0
      && forall k :: 0 <= k < |defaults[i].categories| ==> defaults[i].categories[k] in GoalCategories
  }
}
