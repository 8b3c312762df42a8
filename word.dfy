/** The data shapes of `src/types/word.ts` that the parser produces. */
module Word {

  datatype Option<T> = None | Some(value: T)

  /** `WordTag`: the study status a learner can put on a word. */
  datatype WordTag = Skip | Easy

  /** `WordItem`: a study-list entry. `tag` and `correctCount` are optional,
      as they are in the interface. */
  datatype WordItem = WordItem(word: string, meaning: string, tag: Option<WordTag>, correctCount: Option<int>)
}
