TestResult.DisplayName,TestResult.Outcome,TestResult.Duration,TestResult.ResourceCount,RandomSeed
NumberParsing.PlusSign (correctness) (assertion batch 4),Passed,00:00:00.1059644,220574,0
NumberParsing.PlusSign (well-formedness) (assertion batch 1),Passed,00:00:00.0960454,7396,0
NumberParsing.PlusSign (well-formedness) (assertion batch 2),Passed,00:00:00.0958916,10858,0
NumberParsing.PlusSign (correctness) (assertion batch 2),Passed,00:00:00.0241434,20345,0
NumberParsing.PlusSign (correctness) (assertion batch 5),Passed,00:00:00.0208826,16500,0
NumberParsing.PlusSign (correctness) (assertion batch 3),Passed,00:00:00.0207361,25188,0
NumberParsing.PlusSign (correctness) (assertion batch 1),Passed,00:00:00.0206243,22065,0
NumberParsing.PlusSign (correctness) (assertion batch 6),Passed,00:00:00.0169637,28165,0
